# Ranked pairs with ties, in Dafny

This project models the core of the `ranked-pairs` Rust crate. The crate counts a
ranked-ballot election by Tideman's ranked pairs method and keeps every tie.

- **Pairwise tabulation** (`src/pairwise.rs`, module `Pairwise`). For every pair of
  candidates, it counts the ballots that rank each one first. It then files each
  non-tied pair, as a `(winner, loser)` edge, under its margin of victory.
- **Acyclic graph** (`src/graph.rs`, module `Graph`, with the path theory in module
  `Paths`). A graph has a fixed node count and an ordered set of edges.
  - `try_add_edge` refuses any edge that would close a cycle. It detects the cycle
    with a stack-based depth-first search, the `Dfs` iterator.
  - `roots` lists the nodes that have no incoming edge.
- **Tally** (`src/lib.rs`, module `RankedPairs`).
  - Ballots are validated. The data is tabulated.
  - The groups of equal-margin pairs are taken from the widest margin down.
  - Every graph so far is extended by every ordering of the group's pairs, and
    equal graphs are merged.
  - The winners are the roots of all the final graphs.

The Dfs iterator is specified by the lexicographic order on walks from the start
node. `Next` moves the stack to the first walk after the current one, or returns
`None` when there is none. Running the search to its end therefore yields exactly
the nodes reachable from the start, which is what `try_add_edge` needs.

The tally is specified by value:
- `Apply` folds `try_add_edge` over one ordering;
- `Step` takes every graph and every ordering of one group;
- `Search` runs `Step` over all groups;
- `TallyOf` is the set of roots of the result.

The methods that loop over graphs, orderings and edges are proved equal to these
functions. The functions are then proved to have the properties the method promises:
- winners are candidates;
- there is at least one winner;
- with no pairwise data, everyone wins;
- a candidate who beats every other candidate, and whom nobody beats, wins alone.

Validation is documented in `src/lib.rs:31-33` and exercised by `src/test.rs:7-11`:
a candidate number out of range gives `InvalidCandidate`, and a repeated candidate
gives `InvalidBallot`. The tabulation code itself checks neither. `from_ballots`
applies `?` to the table, which is not a `Result`. This model implements the
documented behaviour:
- the ballots are checked in order, and the first faulty ballot decides;
- within one ballot, an out-of-range candidate takes precedence over a duplicate.

## Model

| member | source | states |
|---|---|---|
| Paths.AddEdgeAcyclic | src/graph.rs:24-25 | adding `s -> d` to an acyclic edge set keeps it acyclic when `s != d` and `d` does not reach `s` |
| Paths.NoIntoUnreachable | src/graph.rs:36-38 | a node with no incoming edge is reachable from no node |
| Paths.ChainBound | src/graph.rs:78-95 | on an acyclic edge set a walk never takes more steps than there are edges, which bounds the search stack |
| Paths.ExtendIsSuccessor | src/graph.rs:72-77 | pushing the smallest outgoing edge of the stack's end gives the next walk in lexicographic order |
| Paths.SiblingIsSuccessor | src/graph.rs:79-91 | after popping back to position `k`, taking the next edge of the same source gives the next walk in lexicographic order |
| Paths.NothingAfter | src/graph.rs:93 | from a leaf, with no later sibling edge anywhere on the stack, no walk follows the stack: the search is over |
| Paths.AboveShrinks | src/graph.rs:71-97 | every step to a later walk strictly shrinks the finite set of walks still ahead, so the search terminates |
| Paths.YieldedStep | src/graph.rs:71-97 | after a step, the nodes yielded so far are the previous ones plus the node at the end of the new walk |
| Paths.YieldedLast | src/graph.rs:93 | once the last walk is reached, a node has been yielded exactly when it is reachable from the start |
| Graph.AddEdgeValid | src/graph.rs:17-29 | `try_add_edge` keeps the node count, keeps every edge and keeps the graph acyclic with endpoints in range |
| Graph.AcyclicHasRoot | src/graph.rs:31-41 | an acyclic graph with at least one node has at least one root |
| Graph.NodeRange | src/graph.rs:34-35 | the initial range `0..nodes` holds exactly the indices below `nodes` |
| Graph.AcyclicGraph.constructor | src/graph.rs:10-15 | a new graph has the given node count and no edge |
| Graph.AcyclicGraph.Clone | src/lib.rs:61-64 | a copied graph has the same value as the graph it was copied from |
| Graph.Min | src/graph.rs:72 | the least element of a nonempty set, which is the first destination the ordered edge set yields |
| Graph.AcyclicGraph.Outgoing | src/graph.rs:53-60 | the destinations returned are exactly those of the edges leaving `src` |
| Graph.AcyclicGraph.TryAddEdge | src/graph.rs:17-29 | both endpoints are required to be in range. The edge is added exactly when it is not a self-loop and `dst` does not reach `src`, and otherwise nothing changes. The result is true exactly when the edge was added and was new. The graph stays acyclic |
| Graph.AcyclicGraph.Roots | src/graph.rs:31-41 | yields, in ascending order, exactly the nodes that no edge enters |
| Graph.AcyclicGraph.DfsCollect | src/graph.rs:24 | running the search from `start` to the end yields exactly the nodes reachable from `start`, never `start` itself |
| Graph.Dfs.constructor | src/graph.rs:43-51 | a fresh search has an empty stack and stands on `start` |
| Graph.Dfs.Next | src/graph.rs:71-97 | returns the node at the end of the next walk in lexicographic order, and the stack becomes that walk. Returns `None` when the current walk is the last one. After `None` it keeps returning `None` |
| Graph.Dfs.Backtrack | src/graph.rs:78-95 | from a node with no outgoing edge, pops the stack until a later edge of the same source exists and moves to the next walk, or returns `None` when there is no next walk |
| Pairwise.FirstOf | src/pairwise.rs:42-46 | the result is one of the two candidates and occurs in the ballot with neither candidate before it, or it is `None` when the ballot names neither |
| Pairwise.FirstOfSwap | src/pairwise.rs:42-46 | which candidate a ballot ranks first does not depend on the order of the pair |
| Pairwise.CountMentioning | src/pairwise.rs:38-59 | the two counts sum to the number of ballots that name either candidate |
| Pairwise.CountSwap | src/pairwise.rs:38-59 | swapping the pair swaps the two counts |
| Pairwise.CountPairwiseElection | src/pairwise.rs:38-59 | the loop returns the number of ballots ranking `c1` first and the number ranking `c2` first |
| Pairwise.CountExampleBoth | src/pairwise.rs:77-78 | on the test ballots, the counts are (1, 3) for the pair (0, 1) and (3, 1) for (1, 0) |
| Pairwise.CountExampleLast | src/pairwise.rs:79 | on the test ballots, the counts for (0, 4) are (3, 1) |
| Pairwise.CountExampleLastSwapped | src/pairwise.rs:80 | on the test ballots, the counts for (4, 1) are (1, 4) |
| Pairwise.CountExampleSplit | src/pairwise.rs:81 | on the test ballots, the counts for (2, 0) are (1, 2) |
| Pairwise.CountExampleOne | src/pairwise.rs:82 | on the test ballots, the counts for (4, 5) are (1, 0): candidate 5 appears on no ballot |
| Pairwise.CountExampleNeither | src/pairwise.rs:83 | on the test ballots, the counts for (8, 9) are (0, 0) |
| Pairwise.CountExampleUnanimous | src/pairwise.rs:85 | on the test ballots, the counts for (1, 2) are (4, 0) |
| Pairwise.MarginSwap | src/pairwise.rs:13-30 | the margin of `l` over `w` is the negation of the margin of `w` over `l` |
| Pairwise.MarginsAntisymmetric | src/pairwise.rs:13-30 | margins are antisymmetric over all pairs of candidates |
| Pairwise.TableShape | src/pairwise.rs:13-31 | every stored pair has a positive key equal to its winner's margin. Its endpoints are distinct candidates. No pair is stored in both directions |
| Pairwise.SmallTableEmpty | src/pairwise.rs:10-11 | with at most one candidate the table is empty |
| Pairwise.IsTableUnique | src/pairwise.rs:3-36 | the ballots and the candidate count determine the table |
| Pairwise.PairInTable | src/pairwise.rs:10-31 | a pair `c1 < c2` of candidates is stored in some direction exactly when its counts differ. It is stored as `(winner, loser)` under the winner's lead in votes |
| Pairwise.InsertKeeps | src/pairwise.rs:15-20 | the inserted pair was not yet in its group, so the `assert!` around the insert holds. Filing one pair extends the table for the pairs visited so far |
| Pairwise.SkipKeeps | src/pairwise.rs:21-23 | skipping a tied pair extends the table for the pairs visited so far |
| Pairwise.FilePair | src/pairwise.rs:12-31 | after one pair `(c1, c2)` is handled, the table is exactly the one for the pairs visited so far |
| Pairwise.TabulateRow | src/pairwise.rs:11-32 | after the inner loop for `c1`, the table covers every pair up to row `c1` |
| Pairwise.CheckedSub16 | src/pairwise.rs:10 | `u16` subtraction as a debug build performs it, wrapping modulo 2^16 and then checked. It panics (`None`) exactly when the subtrahend is larger, and otherwise gives the difference |
| Pairwise.RowsAsWrittenUnderflow | src/pairwise.rs:10 | the row bound `candidates - 1`, computed with `CheckedSub16`, panics exactly when there is no candidate. Otherwise it is one less than the candidate count |
| Pairwise.TabulatePairwiseResults | src/pairwise.rs:3-36 | returns the table that files every non-tied pair of candidates under its winner's margin, and nothing else |
| RankedPairs.HasInvalidCandidate | src/lib.rs:31-32 | true exactly when the ballot names a candidate number `>= candidates` |
| RankedPairs.HasDuplicate | src/lib.rs:31-33 | true exactly when the ballot names some candidate twice |
| RankedPairs.ValidateBallot | src/lib.rs:96-102 | no error exactly when the ballot is in range and has no duplicate. `InvalidCandidate` exactly when a number is out of range. `InvalidBallot` exactly when it is in range but has a duplicate |
| RankedPairs.Validate | src/lib.rs:31-33 | no error exactly when every ballot is valid. An error is always the error of the first faulty ballot. Without duplicates it is `InvalidCandidate`; with every number in range it is `InvalidBallot` |
| RankedPairs.FromBallots | src/lib.rs:27-42 | fails exactly when validation fails, with the same error. Otherwise it keeps the candidate count and returns the margin table of the ballots, whose pairs name distinct candidates in range |
| RankedPairs.Descending | src/lib.rs:81-82 | lists the margins strictly from widest to slimmest, with exactly the keys of the table |
| RankedPairs.PairwiseResults | src/lib.rs:77-83 | yields one group per margin, in descending order of margin, each the table's group for that margin |
| RankedPairs.OrderingsExact | src/lib.rs:58 | the orderings of a group are exactly the sequences that list each of its pairs once and nothing else |
| RankedPairs.ApplyValid | src/lib.rs:64-69 | adding an ordering's pairs keeps the graph valid with the same node count, keeps every edge and adds only pairs of the ordering |
| RankedPairs.ApplyKeeps | src/lib.rs:64-69 | a pair whose winner no allowed pair enters is always added, whatever the order |
| RankedPairs.ApplyOrder | src/lib.rs:64-70 | the loop over one ordering yields the graph obtained by trying each of its pairs in turn |
| RankedPairs.ExtendOne | src/lib.rs:61-71 | extending one graph by a set of orderings yields exactly the graphs for those orderings, each valid |
| RankedPairs.ExtendAll | src/lib.rs:58-71 | one round produces exactly the set of graphs got by applying every ordering of the group to every graph so far |
| RankedPairs.StepNonempty | src/lib.rs:58-71 | a round never empties the set of graphs |
| RankedPairs.SearchGroups | src/lib.rs:52-72 | the loop over the groups produces exactly the graphs of the full search from the edgeless graph |
| RankedPairs.SearchInvariant | src/lib.rs:52-72 | the search yields a nonempty set of valid graphs, over the candidates, whose edges all come from the groups. Each contains every pair whose winner no pair enters |
| RankedPairs.CollectRoots | src/lib.rs:74 | the union of the roots of all graphs |
| RankedPairs.Tally | src/lib.rs:50-75 | returns the roots of all graphs of the search over the groups in descending order of margin |
| RankedPairs.TallyBallots | src/lib.rs:86-91 | fails exactly when validation fails, with the same error. Otherwise a margin table of the ballots exists, and the result is the tally of that table, which is the only one |
| RankedPairs.WinnersBounds | src/lib.rs:74 | every winner is a candidate, and with at least one candidate there is a winner |
| RankedPairs.NoPairwiseData | src/lib.rs:52-74 | without any non-tied pair every candidate wins |
| RankedPairs.UnbeatenWins | src/lib.rs:50-75 | a candidate who loses no stored pair is among the winners, whatever the other pairs. Candidate 3 of src/test.rs:37-55 is such a candidate |
| RankedPairs.Condorcet | src/lib.rs:44-75 | a candidate who beats every other candidate, and whom no pair beats, is the only winner |
| RankedPairs.SmallElection | src/test.rs:13-35 | with zero or one candidate, the winners are all the candidates, whatever the ballots |
| RankedPairs.InvalidCandidateExample | src/test.rs:9 | ballots `[1, 2]`, `[0, 3]` with three candidates fail with `InvalidCandidate` |
| RankedPairs.InvalidBallotExample | src/test.rs:10 | ballots `[0, 1, 2]`, `[0, 1, 0]` with three candidates fail with `InvalidBallot` |

## Left out

- Integer widths are not modelled. Candidates are `u16` and counts and margins are
  `usize` in the source. They are unbounded naturals here. Only the row bound of the
  pair loop is modelled at 16 bits (`Pairwise.CheckedSub16`, see Findings).
- Containers are abstracted.
  - `BTreeSet`, `BTreeMap` and `HashSet` are `set` and `map`. Iteration order is kept
    where the model relies on it: edges are ordered lexicographically, and margins
    are listed descending.
  - The `rangemap::RangeSet` in `roots` is a set of naturals.
  - The `itertools` `permutations` and `cartesian_product` are a set comprehension
    (`Orderings`) and the `Step` function.
  - Hashing is not modelled.
- The B-tree cursor in `Dfs::next` is an existential search for the next edge of the
  same source, after the popped edge in the edge order.
- The source clones whole graphs and deduplicates them by value. Here they are
  `GraphValue` datatypes. Each extension builds an `AcyclicGraph` object from a value
  and calls `TryAddEdge`, so aliasing between graphs is not modelled.
- Source validation code is not part of this model. The crate's validation code is
  missing, and its `?` does not type-check. `FromBallots` models the documented
  validation as a separate pass before tabulation.
- The error messages attached by `thiserror` are not modelled.
- The `#[non_exhaustive]` attribute of `Error` is not modelled.
- Some unit tests are not restated.
  - The concrete 6-candidate table test (src/pairwise.rs:88-99) is covered only
    through `Pairwise.PairInTable` and `Pairwise.TableShape`.
  - The depth-first visiting order test (src/graph.rs:102-131) is covered by
    `Graph.Dfs.Next`'s specification, not as a concrete run.
  - The tally tests on several candidates (src/test.rs:37 onward) are not evaluated
    concretely.
    - `wikipedia_example` (src/test.rs:57-76) meets the premises of
      `RankedPairs.Condorcet`, since candidate 1 beats every other candidate.
    - In `simple` (src/test.rs:37-55), candidates 3 and 0 tie, so `Condorcet`
      does not apply. `RankedPairs.UnbeatenWins` shows only that candidate 3 wins,
      not that it wins alone.
    - The later tests are not covered.
- RankedPairs.OrderingsExact: characterises the orderings of a group but does not
  state that there are `k!` of them.
- RankedPairs.Tally: the result is the search applied to the tabulated data. It is
  not compared with the source's tests on multi-candidate elections.
- Performance is not modelled: the search is exponential in the size of each group.

## Findings

| source | as written | input that shows it | evidently intended | confidence | as-written member | corrected member |
|---|---|---|---|---|---|---|
| src/pairwise.rs:10 | the outer loop runs over `0..candidates - 1` with `candidates: u16`, so the subtraction overflows when there is no candidate: a panic in a debug build | `tabulate_pairwise_results(&[], 0)`, reached from `tally(&[], 0)`, which src/test.rs:15-19 expects to give no winner | no row when there are fewer than two candidates, so an empty table | medium, not executed | Pairwise.RowsAsWrittenUnderflow | Pairwise.SmallTableEmpty |
