# fof: friend-of-friend graph core, modelled in Dafny

The model covers `graph.go` of the `fof` package, an in-memory undirected
friendship graph. It has two layers.

- **EdgeSet** holds the neighbour ids of one node as a strictly ascending,
  duplicate-free slice. Its operations are:
  - insertion at an index (`intSliceInsert`);
  - `Add`, with an append fast path and a binary-search fallback;
  - membership (`Exists`, `index`);
  - a two-cursor `Intersection`;
  - `Replace`, which sorts and adopts a slice;
  - two unions: `Merge` by repeated `Add`, and `MergeReplace` by one ordered merge into a buffer that grows.
- **Graph** maps each node id to its EdgeSet. `Add(a, b)` records a
  friendship at both ends. `Mutual(from)` returns the mutual friends of
  `from`, each with a weight: the number of `from`'s friends it is also
  friends with.

The project has three modules, one per file:

- `SortedSeqs` (`sorted_seqs.dfy`) holds the shared vocabulary:
  - the ordering predicates;
  - `Canonical(S)`, the unique strictly ascending enumeration of a finite id set;
  - the two Go library routines the core calls, `sort.SearchInts` and `sort.Ints`, each given by the contract the Go library documents.
- `EdgeSets` (`edge_sets.dfy`) models EdgeSet as a class whose `edges` field
  the methods reassign. Every state change except `Replace` is specified as
  `edges == Canonical(<the new member set>)`. That pins down the contents,
  the order and the absence of duplicates all at once. `Replace` is
  specified as `edges == SortInts(ids)`, which keeps any duplicates of
  `ids`.
- `Graphs` (`graphs.dfy`) models Graph as a class with the `Index` map. It
  adds a ghost adjacency map `Adj` as its abstract value. The graph
  invariant `WellFormed(Adj)` says three things:
  - every neighbour list is strictly ascending;
  - no node is its own neighbour;
  - every edge is recorded at both ends.

  `Graph.Valid()` ties `Index` to `Adj`. It also records that no EdgeSet
  serves two nodes, through the ghost map `Owner`.

Two panics are modelled as unreachable:
- the "inconceivable" branches of `Intersection` and `MergeReplace`;
- the "graph inconsistency" panic of `Graph.Add`.

Each is an `assert false` that the verifier discharges.

## Model

| member | source | states |
|---|---|---|
| SortedSeqs.SearchInts | graph.go:114 | sort.SearchInts on an ascending slice: an index within bounds, with every id before it below x and every id from it on at least x (the lower bound). |
| SortedSeqs.SearchWindow | graph.go:114 | The binary search behind sort.SearchInts keeps the lower-bound property on the window it narrows. |
| SortedSeqs.SortInts | graph.go:149 | sort.Ints: the result is ascending and a permutation (same multiset) of its input. |
| SortedSeqs.SortAscendingIsIdentity | graph.go:149 | Sorting an already ascending slice leaves it unchanged. |
| SortedSeqs.StrictIffNoDuplicates | graph.go:68-70 | An ascending slice satisfies the EdgeSet invariant exactly when no id occurs twice. |
| SortedSeqs.SortStrictIffNoDuplicates | graph.go:142-151 | The sorted slice is strictly ascending exactly when the input had no duplicates. |
| SortedSeqs.EnumerationUnique | graph.go:68-70 | Two strictly ascending slices holding the same ids are equal, so an EdgeSet is determined by its members. |
| SortedSeqs.CanonicalOf | graph.go:68-70 | Every valid EdgeSet slice is the canonical enumeration of its own members. |
| SortedSeqs.CardinalityOf | graph.go:153-155 | A strictly ascending slice has as many ids as entries. |
| SortedSeqs.CountInStrict | graph.go:68-70 | In a valid EdgeSet slice each id occurs at most once. |
| EdgeSets.MaxInt | graph.go:219-224 | maxInt returns one of its arguments, and that one is at least as large as both. |
| EdgeSets.IntSliceInsert | graph.go:72-89 | For idx <= len(s), the result is s[..idx], then v, then s[idx..], on every branch (front, end, middle). An idx past the end panics in the source and is excluded by the precondition. |
| EdgeSets.InsertInGap | graph.go:91-106 | Inserting an absent id at the point where the ids below end gives the canonical slice of the enlarged set. At the end of the slice that insertion is an append. |
| EdgeSets.AddPresent | graph.go:99-102 | Adding an id that is already present leaves the canonical slice as it is. |
| EdgeSets.EdgeSet.constructor | graph.go:68-70 | The zero EdgeSet is empty and valid. |
| EdgeSets.EdgeSet.Len | graph.go:153-155 | On a valid set, Len is the number of distinct members. |
| EdgeSets.EdgeSet.IndexOf | graph.go:113-119 | index reports (-1, true) exactly when a is present. Otherwise it reports (idx, false), where every id before idx is below a and every id from idx on is above a. |
| EdgeSets.EdgeSet.Exists | graph.go:108-111 | Exists is true exactly when a is a member. |
| EdgeSets.EdgeSet.Add | graph.go:91-106 | Returns true exactly when a was absent. The set becomes the canonical slice of old members plus a, stays valid and grows by one exactly when a was new. A present id leaves the slice unchanged. On an empty set, or with a above the last id, a is appended (the no-search fast path). |
| EdgeSets.IntersectSkip | graph.go:130-133 | Advancing the cursor past the smaller head keeps the intersection invariant: that head occurs nowhere in the other set. |
| EdgeSets.IntersectMatch | graph.go:126-129 | A common head is emitted once, and the intersection invariant is kept. |
| EdgeSets.IntersectDone | graph.go:125-139 | Once either cursor is exhausted, the output holds exactly the common ids. |
| EdgeSets.EdgeSet.Intersection | graph.go:121-140 | Returns a new valid EdgeSet, the canonical slice of the ids in both sets. Neither input is modified, and the "inconceivable" branch is unreachable. |
| EdgeSets.EdgeSet.Replace | graph.go:142-151 | edges becomes sort.Ints of ids, a sorted permutation of ids. Empty ids clears the set. Duplicates are kept, so the set is valid afterwards exactly when ids had none. |
| EdgeSets.EdgeSet.Merge | graph.go:161-165 | Repeated Add keeps the set valid and leaves the canonical slice of the union of both member sets. |
| EdgeSets.Zeroes | graph.go:170 | make([]int, n) has length n. |
| EdgeSets.Grow | graph.go:174-177 | Appending the zeroed extension lengthens the buffer by its size and keeps the filled part intact. |
| EdgeSets.Put | graph.go:179-180 | Writing the slot just past the filled part extends the filled part by exactly that id. |
| EdgeSets.MergeTakeBoth | graph.go:178-182 | A common head is written once and both cursors advance, keeping the merge invariant. |
| EdgeSets.MergeTakeLeft | graph.go:183-190 | Writing the smaller head (from either side) keeps the merge invariant: ascending output holding both scanned prefixes. |
| EdgeSets.MergeDone | graph.go:216 | With both cursors at the end, the filled part is the canonical union. |
| EdgeSets.Drain | graph.go:196-214 | A tail loop copies the rest of one input after the merged prefix. It grows the buffer by the remaining count when full and keeps the merge invariant up to that input's end. |
| EdgeSets.MergeSorted | graph.go:167-217 | The pre-sized, growing three-way merge yields exactly the canonical union of two strictly ascending slices. Growth never drops or duplicates an id, and the "inconceivable" branch is unreachable. |
| EdgeSets.EdgeSet.MergeReplace | graph.go:167-217 | The set stays valid and becomes the canonical slice of old members plus the other set's members. That is the same final state Merge reaches. |
| Graphs.AddNode | graph.go:18-25 | Registering a node adds exactly that id as a node and changes no neighbour list. |
| Graphs.AddNodeWellFormed | graph.go:18-25 | Registering a node without neighbours keeps the graph invariant. |
| Graphs.Graph.constructor | graph.go:12-16 | NewGraph: no nodes, and the invariant holds. |
| Graphs.Graph.GetOrCreate | graph.go:18-25 | Returns the EdgeSet registered for id. A known id leaves Index unchanged; an unknown one gets a fresh empty EdgeSet and becomes a node without neighbours. Every node already present keeps its EdgeSet object. The invariant is kept. |
| Graphs.EndpointsAgree | graph.go:35-40 | Under the invariant, b is a neighbour of a exactly when a is a neighbour of b. So the two inserts of Add always agree. |
| Graphs.AddEdgeRelation | graph.go:27-43 | Adding a-b changes the edge relation by exactly a-b and b-a, and a self-loop changes nothing. |
| Graphs.AddEdgeWellFormed | graph.go:27-43 | Adding an edge keeps the graph invariant, including symmetry. |
| Graphs.AddEdgeUndirected | graph.go:27-43 | Adding a-b and adding b-a give the same graph. |
| Graphs.AddEdgeExisting | graph.go:35-42 | Adding an edge that already exists leaves the graph unchanged. |
| Graphs.AddEdgeAfterNodes | graph.go:32-36 | Registering both ends before inserting gives the same graph as adding the edge outright. |
| Graphs.Graph.Add | graph.go:27-43 | A self-loop returns false and changes nothing. Otherwise both ends become nodes and each lists the other. The new graph is the old one plus the edge, the invariant is kept, and the result is true exactly when the edge was new. Every node already present keeps its EdgeSet object, and a node the call creates gets a fresh one, so a caller can keep adding edges. |
| Graphs.Graph.Link | graph.go:35-42 | Both EdgeSets gain the other end. Their results agree, so the panic is unreachable, and the result says whether the edge was new. |
| Graphs.AddWeights | graph.go:45-50 | Every id's weight (zero when missing) rises by the number of times it occurs in ids. The keys become the old keys plus the ids. |
| Graphs.ReachStep | graph.go:58-64 | Visiting one more neighbour adds exactly that neighbour's friends to the ids reached. |
| Graphs.ConfirmationsStep | graph.go:58-64 | Visiting one more neighbour adds one to a candidate's count exactly when the candidate is a friend of both. |
| Graphs.TallyStep | graph.go:59-61 | One loop round of Mutual (intersect, then addWeights) extends the per-id counts from the visited neighbours to one more. |
| Graphs.ConfirmationsPositive | graph.go:52-66 | A weight is positive exactly when the id is a friend of from and a friend of some friend of from. |
| Graphs.ConfirmationsCount | graph.go:52-66 | Over a duplicate-free neighbour list, a weight counts the distinct neighbours the id is a friend of. |
| Graphs.SharedCountIsCommonFriends | graph.go:52-66 | Under the invariant, the weight of a mutual friend x is the number of friends x and from have in common. |
| Graphs.MutualIdsAreFriends | graph.go:52-66 | Every mutual friend is a friend of from, and from is never its own mutual friend. |
| Graphs.Graph.Mutual | graph.go:52-66 | An unknown node yields an empty set and no weights. Otherwise the result is the valid canonical slice of from's friends that are friends of some friend of from. The weights have exactly those keys, each weight being the number of from's friends the id is a friend of, that is the number of friends the id and from have in common. |

## Left out

- The tests' file loading and the benchmarks are not part of this model. They parse a data file and time code.
- `sort.SearchInts` and `sort.Ints` are modelled by their documented contracts (`SearchInts` as a binary search, `SortInts` as an insertion sort), not by the Go library's code.
- Slice aliasing and capacity are not modelled: slices are value sequences.
  - The in-place `append(s[:idx+1], s[idx:]...)` splice of `intSliceInsert` is one case.
  - The shared backing array of `Replace` is another. The caller's slice is not sorted in place here.
  - `MutableIds`, which exposes the internal slice (graph.go:157-159), is also not modelled.
- EdgeSets.EdgeSet.MergeReplace: the output buffer is a value sequence that `Grow` and `Put` rebuild, not an array updated in place. The merge loop is the module-level method `MergeSorted`, and its two tail loops are the one method `Drain`, called once per input.
- Graphs.AddWeights: Go updates the caller's map in place; here the method returns the updated map, and `Mutual` reassigns its `weights` to it.
- Graphs.Graph.Mutual: Go returns a nil weights map for an unknown node. Here that is the empty map, which reads the same for every lookup.
- Pointer identity of the EdgeSets in `Index` is modelled only as far as the invariant needs it: the ghost `Owner` map says that no EdgeSet serves two nodes.
- Map iteration order plays no part: nothing in the core iterates over a map.
- Go's `int` is 64 bits wide, while the model uses unbounded integers. The core only compares and counts ids, and no count can reach 2^63.

