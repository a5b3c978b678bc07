# BubbleSortIST in Dafny

This project models the core of BubbleSortIST, two C programs that build
parent tables for n - 1 spanning trees of the bubble-sort network B_n. The
vertices of B_n are the n! permutations of 1..n, and two vertices are adjacent
when they differ by one exchange of neighbouring positions. One program is
serial (`ist_bubble_sort_serial.c`). The other (`ist_bubble_sort.c`) splits
the vertex rows among MPI ranks.

Both programs share the same helpers:

- `factorial`;
- `generate_permutations`, swap-and-restore backtracking that fills the
  vertex table;
- `compute_inverse` and `find_position`;
- `swap_vertex`, which exchanges the first occurrence of a symbol with its
  right neighbour;
- `find_vertex_index`, a linear scan of the vertex table.

They also share the per-vertex parent rule for tree t (0 <= t <= n - 2):

- Case 1: the last symbol is n. Swap symbol t + 1, unless the position of
  t + 1 in the inverse is n. In that event, for row 0 the program writes the
  self-loop; any other row keeps -1. `ParentRule.RootBranchUnreachable`
  proves that this event never happens.
- Case 2: the last symbol is t + 1. Swap symbol n.
- Case 3: any other vertex gets -1.

The modules follow the program's structure:

- `Permutations` (`permutations.dfy`): the permutation algebra as
  specification functions. `IsPerm`, `Inverse`, `FirstIndex` and
  `PositionOf` (find_position's answer), `SwappedByValue` (swap_vertex's
  answer) and `IndexOf` (find_vertex_index's answer), with their lemmas:
  pigeonhole, involution, the position of x in the inverse, and a swap being
  a neighbour in B_n.
- `Enumeration` (`enumeration.dfy`): `Generated`/`Branches`, the sequence of
  entries the backtracking writes, and `Vertices(n)`, the table it builds from
  the identity. The lemmas prove that this table has n! entries, all of them
  permutations, pairwise distinct, with every permutation present and the
  identity first.
- `Helpers` (`helpers.dfy`): the C helpers as imperative methods over
  arrays. Each one is proved against the specification functions above;
  `GeneratePermutations` swaps `arr` in place, restores it, and writes
  `vertices[index..]`.
- `ParentRule` (`parent_rule.dfy`): `ParentOf`, the loop body's value for entry
  (i, t), branch for branch and dead branch included, and the method
  `ComputeParent`, which runs the loop body with the helper methods. Lemmas
  prove that the self-loop branch is dead, that an entry depends only on the
  vertex and t, that an assigned parent is a neighbour and never the vertex
  itself, what the identity's parent is, and which entries stay -1.
- `Serial` (`serial.dfy`): the serial main program. It clears the table, then
  fills every entry tree by tree.
- `Distributed` (`distributed.dfy`): the row slice of each rank
  (`vertices_per_process = num_vertices / size`, where the last rank takes
  the remainder), the per-rank fill, and the agreement of the per-rank tables
  with the serial one.

The C code works on globals `n`, `num_vertices` and `vertices`; here they are
parameters. The vertex table is an `array<seq<int>>` holding each vertex's
first n symbols. The programs fix n = MAX_N = 4; the model takes any n from 1
to `MaxN` (= 4).

In tree t = 0 of B_3 the code gives (2,1,3) the parent (2,3,1), because
swap_vertex exchanges the symbol with its right neighbour
(`ParentRule.B3ParentOf213`); (2,3,1) points back to (2,1,3)
(`ParentRule.B3ParentOf231`).

## Model

| member | source | states |
|---|---|---|
| Helpers.ComputeFactorial | ist_bubble_sort.c:28-32 | the loop's product is x! |
| Permutations.Factorial | ist_bubble_sort.c:28-32 | x! is at least 1 |
| Helpers.GeneratePermutations | ist_bubble_sort.c:35-47 | advances the index by exactly (end - start + 1)!, writes `Generated(arr, start)` to `vertices[index..next]`, leaves every other table entry alone, and restores `arr` |
| Helpers.GenerateBranch | ist_bubble_sort.c:43-45 | one loop iteration (swap, recursive call, swap back) writes `Generated(Swap(arr, start, i), start + 1)` to the next (end - start)! slots, leaves the other entries alone, and restores `arr` |
| Enumeration.Generated | ist_bubble_sort.c:35-47 | definition of the write order: at the last position the call writes the array itself; otherwise it writes `Branches(a, start, \|a\|)` |
| Enumeration.Branches | ist_bubble_sort.c:42-46 | definition: the entries of iterations start..i-1 in order, where iteration j writes `Generated(Swap(a, start, j), start + 1)` |
| Enumeration.Vertices | ist_bubble_sort_serial.c:94-97 | definition: the table is `Generated(Identity(n), 0)`, the call from the identity at level 0 |
| Enumeration.GeneratedLength | ist_bubble_sort.c:35-47 | a call at level start writes (\|a\| - start)! entries |
| Enumeration.BranchesLength | ist_bubble_sort.c:42-46 | the first i - start loop iterations write (i - start) * (\|a\| - start - 1)! entries |
| Enumeration.GeneratedShape | ist_bubble_sort.c:35-47 | every entry written keeps the array's fixed prefix and is a rearrangement of it |
| Enumeration.BranchesShape | ist_bubble_sort.c:42-46 | every entry of the first i - start iterations has a's length, keeps a's first start symbols, rearranges a, and holds one of a[start..i) at position start |
| Enumeration.GeneratedDistinct | ist_bubble_sort.c:35-47 | from distinct symbols, no entry is written twice |
| Enumeration.BranchesDistinct | ist_bubble_sort.c:42-46 | the iterations of one level write pairwise distinct entries |
| Enumeration.BranchesDisjoint | ist_bubble_sort.c:42-46 | no entry of the iterations before j is also written by iteration j |
| Enumeration.BranchesContain | ist_bubble_sort.c:42-46 | an entry of iteration j is among the entries of the first i > j iterations |
| Enumeration.GeneratedComplete | ist_bubble_sort.c:35-47 | every rearrangement that keeps the fixed prefix is written |
| Enumeration.SwapStep | ist_bubble_sort.c:43-44 | exchanging start with the position of the wanted symbol brings the array one position closer to a target rearrangement |
| Enumeration.GeneratedFirst | ist_bubble_sort.c:35-47 | the first entry written is the array as it was on entry |
| Enumeration.BranchesFirst | ist_bubble_sort.c:42-46 | the first iteration (i = start, an identity swap) writes the unchanged array first |
| Enumeration.VertexTable | ist_bubble_sort_serial.c:94-97 | the table built from the identity has n! entries, each a permutation of 1..n, pairwise distinct, containing every permutation, with the identity at index 0 |
| Helpers.BuildVertexTable | ist_bubble_sort_serial.c:90-97 | after the identity fill and the call from index 0, num_vertices = n! and the table's first n! entries are `Vertices(n)` |
| Permutations.PermMultiset | ist_bubble_sort_serial.c:94-97 | helper of `Enumeration.VertexTable` (completeness of the table): a permutation of 1..n has the multiset of the identity (pigeonhole) |
| Permutations.PermIffMultiset | ist_bubble_sort_serial.c:94-97 | helper of `Enumeration.VertexTable`: a length-n sequence is a permutation of 1..n exactly when it rearranges the identity |
| Permutations.PermContainsAll | ist_bubble_sort.c:50-58 | a permutation of 1..n contains every symbol 1..n |
| Permutations.Inverse | ist_bubble_sort.c:50-52 | definition: slot k holds the 1-based position of k + 1 in p; the result has p's length |
| Permutations.InverseIsInverse | ist_bubble_sort.c:50-52 | the inverse of a permutation p has inv[p[i] - 1] = i + 1 for every i and is itself a permutation of 1..n |
| Permutations.InverseFacts | ist_bubble_sort.c:50-52 | any sequence whose slot k holds the position of k + 1 in p undoes p and is a permutation |
| Permutations.LeftInverseDistinct | ist_bubble_sort.c:50-52 | a sequence that p maps back to the identity has no repeated symbol |
| Permutations.InverseInvolution | ist_bubble_sort.c:50-52 | inverting the inverse gives back the permutation |
| Helpers.ComputeInverse | ist_bubble_sort.c:50-52 | the array after the loop is the scatter of the positions; on a permutation its first n slots hold the inverse, whatever they held before |
| Helpers.Scattered | ist_bubble_sort.c:51 | definition of the loop's state after i steps: base with slot perm[j] - 1 set to j + 1 for j = 0..i-1 in order, later writes winning; the length of base is kept |
| Helpers.ScatteredInverse | ist_bubble_sort.c:50-52 | scattering the positions of a permutation yields its inverse |
| Helpers.ScatteredPositions | ist_bubble_sort.c:51 | after i steps, slot perm[j] - 1 holds j + 1 for each j < i |
| Helpers.ScatteredPrefix | ist_bubble_sort.c:51 | only the first n symbols of perm matter |
| Permutations.FirstIndex | ist_bubble_sort.c:55-58 | the result is -1 exactly when x is absent; otherwise it is the first index holding x |
| Permutations.FirstIndexAt | ist_bubble_sort.c:55-58 | the first occurrence is at i when s[i] = x and x is absent before i |
| Permutations.FirstIndexOfDistinct | ist_bubble_sort.c:74-86 | in a sequence without duplicates, the first index of s[i] is i |
| Permutations.PositionOf | ist_bubble_sort.c:55-58 | definition: the 1-based index of the first x in s, or -1 when x is absent |
| Helpers.FindPosition | ist_bubble_sort.c:55-58 | returns the 1-based position of the first x among inv[0..n), or -1 |
| Permutations.PositionInInverse | ist_bubble_sort.c:50-58 | for a permutation p and 1 <= x <= n, the position find_position finds for x in the inverse is p[x - 1], never -1 |
| Permutations.SwappedByValue | ist_bubble_sort.c:61-71 | the result has v's length and is a rearrangement of v |
| Permutations.SwappedByValueFacts | ist_bubble_sort.c:61-71 | if x first occurs at i < n - 1, the result exchanges positions i and i + 1 and keeps every other position; if x is not among the first n - 1 symbols, the result is v |
| Permutations.Relabel | ist_bubble_sort_serial.c:94-97 | helper of `Permutations.PermMultiset`, the pigeonhole step behind `Enumeration.VertexTable`: removing n from a permutation of 1..n (moving the last symbol into its slot) leaves a permutation of 1..n - 1 |
| Helpers.SwapVertex | ist_bubble_sort.c:61-71 | the copy-then-swap loop returns `SwappedByValue(v, x)` |
| Permutations.SwapPreservesPerm | ist_bubble_sort.c:65-67 | exchanging two positions of a permutation gives a permutation |
| Permutations.SwapPreservesNoDuplicates | ist_bubble_sort.c:65-67 | exchanging two positions keeps the symbols distinct |
| Permutations.SwapMultiset | ist_bubble_sort.c:43 | an exchange keeps the multiset of symbols |
| Permutations.SwappedByValueIsNeighbour | ist_bubble_sort_serial.c:61-71 | when x occurs before the last position of a permutation, the result is a permutation adjacent to v in B_n (one neighbouring exchange, not v itself) |
| Permutations.IndexOf | ist_bubble_sort.c:74-86 | definition: the first index of v in the table, or -1; an alias of `FirstIndex` over vertices |
| Helpers.FindVertexIndex | ist_bubble_sort.c:74-86 | returns -1 exactly when no entry's first n symbols match; otherwise the least matching index; over full-length entries this is `IndexOf(table, v)` |
| ParentRule.VertexLookup | ist_bubble_sort.c:74-86 | over the complete table every permutation of 1..n is found, at an index below n! that holds it |
| ParentRule.ParentOf | ist_bubble_sort.c:126-158 | definition of the loop body's entry for row i of tree t, v = table[i]: if the last symbol is n, `IndexOf(table, SwappedByValue(v, t + 1))` unless posT = n, and then i on row 0 and -1 on any other row; if the last symbol is t + 1, `IndexOf(table, SwappedByValue(v, n))`; otherwise -1 |
| ParentRule.ParentVertex | ist_bubble_sort.c:136-156 | definition of the rule on the vertex alone: `Some(SwappedByValue(v, t + 1))` when the last symbol is n, `Some(SwappedByValue(v, n))` when it is t + 1, `None` otherwise |
| ParentRule.RootBranchUnreachable | ist_bubble_sort.c:137-145 | find_position(inverse(v), t + 1) is v[t], so when n is v's last symbol it is never n and the self-loop branch is dead |
| ParentRule.ParentCases | ist_bubble_sort.c:126-158 | the entry written equals the index of `SwappedByValue(v, t + 1)` when the last symbol is n, of `SwappedByValue(v, n)` when it is t + 1, and -1 otherwise |
| ParentRule.ParentIgnoresIndex | ist_bubble_sort_serial.c:115-147 | two rows holding the same vertex get the same entry: an entry depends on the vertex and t only |
| ParentRule.ParentVertexIsNeighbour | ist_bubble_sort.c:136-152 | the rule names no parent exactly when the last symbol is neither n nor t + 1; a named parent is a permutation adjacent to the vertex |
| ParentRule.ParentInTable | ist_bubble_sort_serial.c:100-147 | over the table the program builds, an entry is -1 exactly when the last symbol is neither n nor t + 1; otherwise it is an index below n!, different from i, of the named neighbour |
| ParentRule.IdentityParent | ist_bubble_sort_serial.c:125-134 | in tree t the root's entry is the index of the identity with positions t and t + 1 exchanged, and is not 0 (no self-loop) |
| ParentRule.GeneratedLastTwo | ist_bubble_sort.c:42-46 | for n = 3 the level-1 call writes the last two symbols in both orders |
| ParentRule.VerticesB3 | ist_bubble_sort.c:35-47 | B_3's table is (1,2,3), (1,3,2), (2,1,3), (2,3,1), (3,2,1), (3,1,2) |
| ParentRule.B3Swap | ist_bubble_sort.c:61-71 | on three symbols, swapping the symbol at position 1 exchanges the last two |
| ParentRule.B3Lookup | ist_bubble_sort.c:74-86 | each of B_3's six vertices is a permutation of 1..3 and find_vertex_index finds it at its own index |
| ParentRule.ParentOf213 | ist_bubble_sort.c:136-141 | over any table holding (2,1,3) at index 2 and first holding (2,3,1) at index 3, tree 0's entry for row 2 is 3 |
| ParentRule.ParentOf231 | ist_bubble_sort.c:148-151 | over any table holding (2,3,1) at index 3 and first holding (2,1,3) at index 2, tree 0's entry for row 3 is 2 |
| ParentRule.B3ParentOf213 | ist_bubble_sort.c:136-141 | in tree t = 0 of B_3, (2,1,3) gets parent index 3, which holds (2,3,1) |
| ParentRule.B3ParentOf231 | ist_bubble_sort.c:148-151 | in tree t = 0 of B_3, (2,3,1) gets parent index 2, which holds (2,1,3): a 2-cycle |
| ParentRule.ParentBySwapT | ist_bubble_sort.c:136-141 | case split of `ParentOf` used by `LastIsN`: when the last symbol is n and the inverse position of t + 1 is not n, the entry is the index of v with t + 1 swapped |
| ParentRule.ParentWhenLastIsN | ist_bubble_sort.c:136-146 | case split of `ParentOf`, with the dead branch removed: whenever the last symbol is n, the entry is the index of v with t + 1 swapped |
| ParentRule.ParentBySwapN | ist_bubble_sort.c:148-152 | case split of `ParentOf` used by `ComputeParent`: when the last symbol is t + 1, the entry is the index of v with n swapped |
| ParentRule.NoParent | ist_bubble_sort.c:154-156 | case split of `ParentOf` used by `ComputeParent`: when the last symbol is neither n nor t + 1, the entry is -1 |
| ParentRule.SwapAndLookup | ist_bubble_sort.c:139-141 | swap_vertex then find_vertex_index returns `IndexOf(table, SwappedByValue(v, x))` |
| ParentRule.InverseOf | ist_bubble_sort.c:131-132 | a fresh array of n ints holding the inverse of v |
| ParentRule.LastIsN | ist_bubble_sort.c:136-146 | Case 1 with find_position on the inverse returns `ParentOf(table, n, i, t)` |
| ParentRule.ComputeParent | ist_bubble_sort.c:126-158 | the loop body with compute_inverse, find_position, swap_vertex and find_vertex_index returns `ParentOf(table, n, i, t)` |
| ParentRule.NewParentTable | ist_bubble_sort.c:110-113 | a fresh num_vertices by (n - 1) table with every entry -1 |
| ParentRule.AssignRows | ist_bubble_sort.c:122-160 | over a table of -1s, the tree loop and the vertex loop over rows [lo, hi) leave entry (a, b) equal to `ParentOf(table, n, a, b)` inside the rows and -1 outside |
| Serial.AssignParents | ist_bubble_sort_serial.c:100-149 | after the init loop and the tree/vertex loop, every entry (i, t) is `ParentOf(table, n, i, t)` |
| Serial.Run | ist_bubble_sort_serial.c:88-149 | the serial program's table: every entry (i, t) is `ParentOf(Vertices(n), n, i, t)`; -1 exactly where the last symbol is neither n nor t + 1; every other entry names a neighbour in B_n other than the vertex; the root's entry in tree t holds the identity with t + 1 and t + 2 exchanged |
| Distributed.SliceOf | ist_bubble_sort.c:116-118 | definition: with q = num_vertices / size, rank's slice is [rank * q, rank * q + q), except that the last rank's slice ends at num_vertices |
| Distributed.RankEntry | ist_bubble_sort.c:110-158 | definition of the entry a rank holds after its loops: `ParentOf` when the row lies in the rank's slice, and the initial -1 otherwise |
| Distributed.RankSlice | ist_bubble_sort.c:116-118 | start_vertex and end_vertex are the bounds of `SliceOf(num_vertices, size, rank)`, with start <= end <= num_vertices |
| Distributed.SliceTiling | ist_bubble_sort.c:116-118 | rank 0 starts at 0, each slice ends where the next rank's begins, the last ends at num_vertices, and each slice lies within [0, num_vertices) |
| Distributed.SliceSizes | ist_bubble_sort.c:116-118 | every slice has num_vertices / size rows except the last, which also absorbs num_vertices % size |
| Distributed.SlicesOrdered | ist_bubble_sort.c:116-118 | a lower rank's slice lies wholly below a higher rank's |
| Distributed.PerProcessBound | ist_bubble_sort.c:116-117 | k * (num_vertices / size) never exceeds num_vertices for k <= size |
| Distributed.OwnerOf | ist_bubble_sort.c:116-118 | names a rank whose slice holds the row |
| Distributed.SliceMembership | ist_bubble_sort.c:116-118 | a row lies in a rank's slice exactly when that rank is its owner: slices are disjoint and cover every row |
| Distributed.RanksAgreeWithSerial | ist_bubble_sort.c:122-158 | the owner rank's entry is the serial value, and every other rank's entry is -1 |
| Distributed.AssignRankParents | ist_bubble_sort.c:109-160 | after the init loop and the loop over the rank's slice, each entry is the rule's value inside the slice and -1 outside it |
| Distributed.Run | ist_bubble_sort.c:88-160 | on each rank the table is `Vertices(n)` with n! rows, and the parent table is the rank's slice fill |

## Left out

- MPI runtime: `MPI_Init`, `MPI_Comm_rank/size`, `MPI_Bcast` and `MPI_Finalize`
  are not modelled. Rank and size are parameters, and `Distributed.Run` builds
  the vertex table on every rank, standing for rank 0's table after the
  broadcast.
- `MPI_Gather` and `recv_buffer` (ist_bubble_sort.c:166-172) are not modelled
  as a merge. Each rank sends `vertices_per_process * (n - 1)` ints, so the
  last rank's remainder rows are dropped, and the buffer is never read. The
  output prints rank 0's local table. `Distributed.RanksAgreeWithSerial`
  states what a correct merge would need.
- Printing of the trees and timing with `clock()` are output only and are not
  modelled.
- Tree properties claimed in the source comments are not modelled, because
  the code does not establish them: independence, acyclicity, spanning, and
  the height bound D(B_n) + n - 1. The 2-cycle proved by
  `ParentRule.B3ParentOf213` and `ParentRule.B3ParentOf231` shows that the
  parent table of a tree need not be a tree.
- `MAX_PERM` padding and the `Vertex.n` field are not modelled. A vertex is
  the sequence of its n symbols, and `swap_vertex` reads `v->n` as that
  length.
- `int` overflow in `factorial` is out of scope: with n <= 4 the values stay
  below 25, so `nat` is used.
- The IST table is sized num_vertices by (n - 1) instead of the fixed
  `MAX_VERTICES` by `MAX_N - 1`. With n = `MAX_N` the two coincide. The
  programs never read the slots outside that range.
- `inv` is a fresh array of length n rather than an uninitialised local of
  `MAX_N` ints. `Helpers.ComputeInverse` holds whatever the array held before.
