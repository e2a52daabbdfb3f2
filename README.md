# Graph algorithms of the graph-ia-book samples, in Dafny

This project models the computational core of the graph-ia-book sample repository. The repository is a C# book companion. It runs the same small problems in two styles: as a "chain" of kernel functions called in sequence, and as a compiled execution graph. The modelled core is the arithmetic and graph logic those samples share:

- **Execution plans** (`ExecutionPlans`). A compiled plan is node ids, an adjacency list, a cycle flag and an optional topological order. Compiling plans is not modelled. A plan is an input, constrained by `Valid`: ids are distinct, every edge end is a node, and an order, when present, is a topological order of exactly those ids. The plan's dictionaries are modelled as sequences in the order the plan enumerates them, because the results depend on that order.
- **Critical path** (`CriticalPaths`, `CriticalPathExamples`). This is the glossary's longest-duration path through an acyclic plan. It builds predecessor lists, finds a finish time per node in topological order with a strict `>` scan over the predecessors, picks the latest finisher, and walks the parents back. The functions specify the algorithm. The methods run its loops and are proved equal to those functions. Lemmas prove the total is the latest finish, the path is a walk of the plan whose durations add up to that total, no walk of the plan has a larger duration sum when durations are non-negative, and the total never exceeds the sum of all durations.
- **Brandes betweenness** (`Brandes`, `GlossaryCentrality`, `GraphSearch`). One breadth-first pass per source counts shortest paths (`sigma`) and records shortest-path predecessors. Credit then flows back in stack order. Scores are normalised by `1/((n-1)(n-2))`. The pass is proved to compute true BFS distances and path counts with sigma(s) = 1 and sigma(x) the sum of sigma over x's predecessors. Its predecessor lists are proved sound and complete: u occurs in x's list once per adjacency entry u→x when u lies one level below x, and never otherwise. The credit phase is proved to be the dependency recurrence. Any two completed passes from the same source agree on distances, path counts, predecessor multisets and dependencies (`BrandesUnique`), so the credit a source passes to a node is a single value.
- **Chapter 23 integer metrics** (`StructuralMetrics`, `StructuralRun`). These cover the mirrored (undirected) adjacency, edge count, weakly connected components, diameter, per-node betweenness and the cyclomatic number `m - n + p`.
- **Chapter 19 automata** (`Automata`). These cover NFA acceptance by set simulation, the subset construction and the order-independent set hash.
- **Chapter 18 matrix algebra** (`MatrixAlgebra`). These cover degree vectors, matrix product, the reachability flag from `A^2` and the acyclicity test by diagonal powers.
- **Chapter 13 CSV parsing** (`CsvRecords`). Newlines are normalised, lines are split and trimmed, and header columns are assigned to records. The chain and graph pipelines are proved to give the same records.
- **Benchmark statistics** (`BenchmarkStats`, `AbHarness`). These cover the iteration guard, the sorted samples, the truncated mean, the p95/p99 percentiles with banker's rounding, the success rate, the artifact names, the ordinal key order of the theory table, and the A/B harness, which runs every input through the chain pipeline and then every input through the graph pipeline.

Modelling choices:

- C# `double` is modelled by exact `real`, and `int`/`long` by unbounded `int`. The one place wrap-around is intended, the automata set hash, is modelled explicitly (`Wrap32`).
- Clocks, files, consoles, JSON and Markdown text, and the kernel plumbing are left out. Each invocation of a measured operation is a parameter: a function from the call index to a result or a thrown exception.
- The same algorithm appears several times in the repository, in `src/chains/...`, `src/graphs/...` and `src/Chapters/...`. Each is modelled once, from the chain copy, and the `## Model` table cites that copy. The chapter 13 graph pipeline differs from the chain one in shape, so both are modelled and proved to agree.
- Where the prose documentation and the code disagree, the code is followed. The documented result is a path from a source node to the latest finisher. The code never takes a predecessor whose finish time is 0. So with durations {start: 0, A: 90, B: 60, merge: 40} on the fork start→{A,B}→merge, the result is total 130 with the path `[A, merge]`, not `[start, A, merge]` (`CriticalPathExamples.GlossaryForkResult`).
- Ties are broken as the code breaks them, not by a separate rule. Among predecessors with equal finish, the first in predecessor-list order wins. Among nodes with equal latest finish, the first in topological order is the end (`CriticalPaths.BestIsFirst`, `CriticalPaths.PeakIsFirstLatest`).
- The chapter 13 graph step that builds records (`src/graphs/chapter13/GraphChapter13.cs:50`) carries a stray `!` that does not compile as written. It is modelled as the evidently intended lambda.

## Model

| member | source | states |
|---|---|---|
| ExecutionPlans.Successors | src/Glossary/GlossaryExamples.cs:93 | Some exactly when the node is an adjacency key, and then that entry's successor list |
| ExecutionPlans.GetTopologicalOrder | src/Glossary/GlossaryExamples.cs:48-56 | succeeds exactly when the plan has no cycle and carries an order; that order is topological; otherwise InvalidOperation |
| ExecutionPlans.OrderedWalk | src/tests/GraphAcyclicityTests.cs:64-73 | every walk of a plan moves strictly forward in its topological order |
| ExecutionPlans.TopologicalMeansAcyclic | src/tests/GraphAcyclicityTests.cs:64-73 | a plan with a topological order has no closed walk: a non-trivial walk never returns to its start |
| CriticalPaths.PredsOfMember | src/Glossary/GlossaryExamples.cs:153-159 | p is among the predecessors of t exactly when the plan has an edge p→t |
| CriticalPaths.PredsAreEdges | src/Glossary/GlossaryExamples.cs:153-159 | every listed predecessor is the source of an edge into the node, and every such source is listed |
| CriticalPaths.EmptyPredecessors | src/Glossary/GlossaryExamples.cs:148-152 | every node id gets an empty predecessor list, and no other key is created |
| CriticalPaths.AddSource | src/Glossary/GlossaryExamples.cs:155-158 | after scanning one adjacency entry, each target's list has gained that source, in order, and nothing else changed |
| CriticalPaths.BuildPredecessors | src/Glossary/GlossaryExamples.cs:148-159 | keys are exactly the node ids; each node's list holds its predecessors in adjacency order |
| CriticalPaths.Best | src/Glossary/GlossaryExamples.cs:167-180 | the chosen finish is at least every candidate's finish and never negative; no parent means 0; a parent is a candidate whose finish is the maximum and positive |
| CriticalPaths.BestIsFirst | src/Glossary/GlossaryExamples.cs:171-178 | the strict `>` scan keeps the first candidate attaining the maximum: every earlier candidate finishes strictly earlier |
| CriticalPaths.BestPredecessor | src/Glossary/GlossaryExamples.cs:167-180 | the imperative predecessor scan returns the best finish and parent that the specification defines |
| CriticalPaths.ScheduledKeys | src/Glossary/GlossaryExamples.cs:162-183 | finish and parent are recorded for exactly the nodes of the order |
| CriticalPaths.ScheduledStep | src/Glossary/GlossaryExamples.cs:164-183 | the node at position k finishes at its duration plus the best finish among its predecessors scheduled before it, and that predecessor becomes its parent |
| CriticalPaths.ScheduledParentsEarlier | src/Glossary/GlossaryExamples.cs:164-183 | every recorded parent was scheduled before its child |
| CriticalPaths.RunSchedule | src/Glossary/GlossaryExamples.cs:162-183 | the dynamic-programming loop produces the finish and parent maps of the specification |
| CriticalPaths.PeakIsFirstLatest | src/Glossary/GlossaryExamples.cs:186-195 | the end search returns a value at least every node's finish; if no node beats int.MinValue it keeps the first id; otherwise it is the first node attaining the latest finish |
| CriticalPaths.FindEnd | src/Glossary/GlossaryExamples.cs:186-195 | the imperative end search returns the specified latest-finishing node |
| CriticalPaths.Reversed | src/Glossary/GlossaryExamples.cs:205 | reversal keeps the length and maps position i to position n-1-i |
| CriticalPaths.TracePath | src/Glossary/GlossaryExamples.cs:198-205 | walking the parents back from the end and reversing gives the specified chain |
| CriticalPaths.CriticalPathOf | src/Glossary/GlossaryExamples.cs:138-207 | fails exactly when the plan has cycles, has no order or has no nodes; cycles or a missing order give InvalidOperation; a success carries a non-empty path |
| CriticalPaths.ComputeCriticalPath | src/Glossary/GlossaryExamples.cs:138-207 | the whole imperative computation returns the specified result |
| CriticalPaths.FinishRecurrence | src/Glossary/GlossaryExamples.cs:164-182 | each node's finish is its duration plus the best predecessor finish, and its parent is that best predecessor |
| CriticalPaths.ParentLink | src/Glossary/GlossaryExamples.cs:167-182 | a node without parent finishes at its own duration; a recorded parent is a predecessor along an edge parent→node, and the node finishes at its duration plus the parent's finish |
| CriticalPaths.ParentFinishedLater | src/Glossary/GlossaryExamples.cs:168-177 | a recorded parent always has a positive finish time, so a node finishing at 0 is never chosen as a parent |
| CriticalPaths.ChainWalk | src/Glossary/GlossaryExamples.cs:198-205 | the traced chain is a walk of the plan ending at the requested node |
| CriticalPaths.ChainSum | src/Glossary/GlossaryExamples.cs:198-206 | the durations along the traced chain add up to the end node's finish |
| CriticalPaths.FinishAtLeastDuration | src/Glossary/GlossaryExamples.cs:166-181 | with non-negative durations each finish is at least its own duration |
| CriticalPaths.ScheduledWithinPrefix | src/Glossary/GlossaryExamples.cs:164-183 | with non-negative durations no finish exceeds the sum of durations of the scheduled prefix |
| CriticalPaths.ResultParts | src/Glossary/GlossaryExamples.cs:186-206 | a successful result is the peak node's finish paired with the chain traced from it |
| CriticalPaths.TotalIsLatestFinish | src/Glossary/GlossaryExamples.cs:186-195 | with non-negative durations the total is the path end's finish, at least every node's finish and every node's duration |
| CriticalPaths.PathIsCritical | src/Glossary/GlossaryExamples.cs:198-206 | the path is a walk of the plan ending at the latest finisher, and its durations add up to the total |
| CriticalPaths.WalkWithinFinish | src/Glossary/GlossaryExamples.cs:162-183 | the durations along any walk of the plan add up to at most the finish time of the walk's last node |
| CriticalPaths.NoWalkLonger | src/Glossary/GlossaryExamples.cs:134-207 | with non-negative durations, no walk of the plan has a larger duration sum than the reported total: the path is a longest path |
| CriticalPaths.ScheduledPeakWithinSum | src/Glossary/GlossaryExamples.cs:186-195 | the latest finish never exceeds the sum of all durations |
| CriticalPaths.TotalWithinSum | src/Glossary/GlossaryExamples.cs:186-206 | a successful total never exceeds the sum of all durations |
| CriticalPathExamples.DemoValid | src/Glossary/GlossaryExamples.cs:22-43 | the glossary's demo plan start→{a,b}→c→end satisfies the plan invariant |
| CriticalPathExamples.DemoJoin | src/Glossary/GlossaryExamples.cs:174-178 | at the join c, a and b tie on finish, and the first predecessor, a, is kept |
| CriticalPathExamples.DemoSchedule | src/Glossary/GlossaryExamples.cs:162-183 | on the demo, start finishes at 1, a and b at 3, c at 6 and end at 7, with parents none, start, a and c along the chain |
| CriticalPathExamples.DemoPeak | src/Glossary/GlossaryExamples.cs:186-195 | the demo's latest finisher is end, at 7 |
| CriticalPathExamples.DemoChain | src/Glossary/GlossaryExamples.cs:198-205 | the demo chain traced back from end |
| CriticalPathExamples.DemoResult | src/Glossary/GlossaryExamples.cs:212-227 | the demo yields total 7 along start, a, c, end |
| CriticalPathExamples.GlossaryDemoResult | src/Glossary/GlossaryExamples.cs:212-227 | CriticalPathOf on the glossary's demo ids and durations gives total 7 along start, a, c, end |
| CriticalPathExamples.ForkSchedule | src/Glossary/GlossaryExamples.cs:167-182 | on the fork, start finishes at 0, A at 90, B at 60 and merge at 130; A gets no parent, and merge's parent is A |
| CriticalPathExamples.ForkPeak | src/Glossary/GlossaryExamples.cs:186-195 | the fork's latest finisher is merge, at 130 |
| CriticalPathExamples.ForkChain | src/Glossary/GlossaryExamples.cs:198-205 | the fork chain is A, merge |
| CriticalPathExamples.ForkResult | src/Glossary/GlossaryExamples.cs:167-182 | the fork yields total 130 along A, merge, without the zero-duration entry |
| CriticalPathExamples.GlossaryForkResult | src/Glossary/GlossaryExamples.cs:167-182 | CriticalPathOf on the glossary's fork gives total 130 along A, merge |
| GlossaryCentrality.PlanGraph | src/Glossary/GlossaryExamples.cs:93-94 | one neighbour list per node position, every target a position |
| GlossaryCentrality.PlanGraphEdges | src/Glossary/GlossaryExamples.cs:93-94 | positions i→j are an edge exactly when ids[i]→ids[j] is an edge of the plan |
| GlossaryCentrality.PassSharesGuarded | src/Glossary/GlossaryExamples.cs:113-119 | after the credit loop of one popped node w, each node's delta has grown by exactly its share from w, and only predecessors holding a delta entry gain |
| GlossaryCentrality.PopAll | src/Glossary/GlossaryExamples.cs:110-124 | popping the whole stack gives each node the specified dependency credit |
| GlossaryCentrality.AccumulateAll | src/Glossary/GlossaryExamples.cs:109-124 | after the pops, each non-source node's centrality has grown by its dependency on the source, and the source's has not |
| GlossaryCentrality.CreditAll | src/Glossary/GlossaryExamples.cs:72-124 | one source's BFS pass followed by its credit phase adds exactly that source's credit to each node, a value every completed pass agrees on |
| GlossaryCentrality.Norm | src/Glossary/GlossaryExamples.cs:128-129 | 1/((n-1)(n-2)) for more than two nodes, else 1, and always positive |
| GlossaryCentrality.Normalised | src/Glossary/GlossaryExamples.cs:130 | a non-negative raw score stays non-negative, zero stays zero, and with at most two nodes the score is unchanged |
| GlossaryCentrality.SumCredits | src/Glossary/GlossaryExamples.cs:68-125 | the outer loop over sources adds up, per node, the credit from every source, so the raw scores are determined by the graph |
| GlossaryCentrality.ScaleScores | src/Glossary/GlossaryExamples.cs:130 | the score map has exactly the node ids as keys, each mapped to its normalised raw score |
| GlossaryCentrality.ComputeBetweennessCentrality | src/Glossary/GlossaryExamples.cs:62-132 | each node's score is its summed Brandes credit over all sources times the norm, and never negative |
| GlossaryCentrality.SinkScoresZero | src/Glossary/GlossaryExamples.cs:109-124 | a node with no successors lies on no shortest path between others and scores 0 |
| GlossaryCentrality.EntryScoresZero | src/Glossary/GlossaryExamples.cs:77-107 | a node that no other node points to is never an intermediate node and scores 0 |
| Brandes.PassStart | src/Glossary/GlossaryExamples.cs:77-85 | the initial state labels only the source, at distance 0 with one path |
| Brandes.LabelNew | src/Glossary/GlossaryExamples.cs:96-100 | labelling a newly reached node at distance d+1 keeps the pass invariant |
| Brandes.AddPath | src/Glossary/GlossaryExamples.cs:101-105 | a node reached again at its own distance adds the current node's path count and records it as a predecessor |
| Brandes.Visit | src/Glossary/GlossaryExamples.cs:94-106 | handling one successor keeps the distances, path counts and predecessor lists consistent with the BFS so far |
| Brandes.ScanPass | src/Glossary/GlossaryExamples.cs:93-106 | handling all successors of the dequeued node keeps the invariant |
| Brandes.PassRound | src/Glossary/GlossaryExamples.cs:89-106 | one dequeue-and-scan round keeps the pass invariant |
| Brandes.SourcePass | src/Glossary/GlossaryExamples.cs:77-107 | the finished pass holds shortest distances and path counts obeying sigma(s) = 1 and the predecessor-sum recurrence; its predecessor lists are sound and complete (u appears in x's list once per edge u→x with u one level below x); the stack lists the reached nodes in non-decreasing distance order |
| Brandes.SoFarLabel | src/Glossary/GlossaryExamples.cs:96-100 | labelling a node that no scanned adjacency entry names keeps each predecessor count equal to the scanned entries one level down |
| Brandes.SoFarScan | src/Glossary/GlossaryExamples.cs:101-105 | scanning entry v→w records v once more in w's list exactly when w lies one level beyond v, and changes no other count |
| Brandes.SoFarVisit | src/Glossary/GlossaryExamples.cs:94-106 | handling one successor keeps every predecessor list counting exactly the scanned edges from one level down |
| Brandes.SoFarExact | src/Glossary/GlossaryExamples.cs:88-107 | once every labelled node is scanned, u occurs in x's list once per adjacency entry u→x with u one level below x, and never otherwise |
| BrandesUnique.LabelsUnique | src/Glossary/GlossaryExamples.cs:77-107 | two BFS labellings from the same source are equal |
| BrandesUnique.PredsUnique | src/Glossary/GlossaryExamples.cs:101-105 | sound and complete predecessor lists over the same labels hold the same multiset |
| BrandesUnique.SumOverPerm | src/Glossary/GlossaryExamples.cs:103 | a path-count sum depends only on the multiset of predecessors |
| BrandesUnique.SigmaUnique | src/Glossary/GlossaryExamples.cs:101-104 | two completed passes agree on every node's path count |
| BrandesUnique.CreditPerm | src/Glossary/GlossaryExamples.cs:113-118 | the dependency sum does not depend on the order of the stack |
| BrandesUnique.DeltaUnique | src/Glossary/GlossaryExamples.cs:109-119 | two completed passes agree on the dependency of every stacked node |
| BrandesUnique.PassUnique | src/Glossary/GlossaryExamples.cs:77-119 | two completed passes agree on distances, path counts, predecessor multisets and reached dependencies |
| BrandesUnique.SourceCreditUnique | src/Glossary/GlossaryExamples.cs:77-124 | the credit one source passes to a node is a single value |
| BrandesUnique.CreditedUnique | src/Glossary/GlossaryExamples.cs:68-125 | the per-node credits summed over all sources are determined by the graph |
| Brandes.PassFinal | src/Glossary/GlossaryExamples.cs:89-107 | once the queue is empty the invariant gives the completed pass |
| Brandes.PopStep | src/Glossary/GlossaryExamples.cs:110-119 | after popping one more node, the deltas satisfy the dependency recurrence sigma(v)/sigma(w)·(1+delta(w)) for every popped node, and deltas of nodes already popped are unchanged |
| Brandes.PopReady | src/Glossary/GlossaryExamples.cs:112-117 | a popped node has at least one shortest path, and its predecessors are other nodes of the graph |
| Brandes.EntryCreditNonneg | src/Glossary/GlossaryExamples.cs:117 | every delta stays non-negative |
| Brandes.NodeCreditStep | src/Glossary/GlossaryExamples.cs:120-123 | a popped node other than the source gains exactly its delta |
| Brandes.SinkNotCredited | src/Glossary/GlossaryExamples.cs:113-118 | a node with no successors is never credited |
| Brandes.UnenteredNotCredited | src/Glossary/GlossaryExamples.cs:96-104 | a node with no in-edges is never a predecessor and so never credited |
| Brandes.CreditedZero | src/Glossary/GlossaryExamples.cs:110-124 | a node that has no successors, or that nothing points to, gets total credit 0 over all sources |
| GraphSearch.BfsLabelsAreDistances | src/chains/chapter23/ChainChapter23.cs:154-166 | a BFS labelling labels exactly the reachable nodes, each with its shortest distance |
| StructuralMetrics.CreateEmptyAdjacency | src/chains/chapter23/ChainChapter23.cs:95-100 | n empty neighbour lists |
| StructuralMetrics.ToUndirected | src/chains/chapter23/ChainChapter23.cs:102-114 | the mirroring loop builds the specified undirected graph |
| StructuralMetrics.UndirectedCounts | src/chains/chapter23/ChainChapter23.cs:102-114 | y occurs in x's undirected list as often as x→y plus y→x occur in the directed graph |
| StructuralMetrics.UndirectedSymmetric | src/chains/chapter23/ChainChapter23.cs:102-114 | the mirrored graph is symmetric |
| StructuralMetrics.UndirectedWellFormed | src/chains/chapter23/ChainChapter23.cs:102-114 | every mirrored neighbour is a node |
| StructuralMetrics.UndirectedSize | src/chains/chapter23/ChainChapter23.cs:102-121 | the mirrored lists hold twice as many entries as the directed graph has edges |
| StructuralMetrics.CountEdges | src/chains/chapter23/ChainChapter23.cs:116-121 | the loop counts the total length of the lists |
| StructuralMetrics.BfsDistances | src/chains/chapter23/ChainChapter23.cs:154-166 | the BFS labels every reachable node with its shortest distance, leaves the rest at -1, and every label is below n |
| StructuralMetrics.MarkComponent | src/chains/chapter23/ChainChapter23.cs:132-138 | the inner BFS marks exactly the nodes reachable from the start and what was marked before |
| StructuralMetrics.ComponentSkip | src/chains/chapter23/ChainChapter23.cs:130 | an already visited node adds no component |
| StructuralMetrics.ComponentNew | src/chains/chapter23/ChainChapter23.cs:131-138 | an unvisited node adds one component and marks its whole component |
| StructuralMetrics.CountWeaklyConnectedComponents | src/chains/chapter23/ChainChapter23.cs:123-141 | the count is the number of components of the mirrored graph |
| StructuralMetrics.LeadersPartition | src/chains/chapter23/ChainChapter23.cs:123-141 | every node is reachable from exactly one leader, the first node of its component |
| StructuralMetrics.ComponentBounds | src/chains/chapter23/ChainChapter23.cs:123-141 | a non-empty graph has between 1 and n components |
| StructuralMetrics.DiameterUnique | src/chains/chapter23/ChainChapter23.cs:143-152 | the diameter is determined by the graph: the largest finite distance over all pairs |
| StructuralMetrics.ComputeDiameter | src/chains/chapter23/ChainChapter23.cs:143-152 | the result is the largest BFS distance from any node, and below n |
| StructuralMetrics.PassShares | src/chains/chapter23/ChainChapter23.cs:205-208 | each predecessor of a popped node gains its share of the dependency |
| StructuralMetrics.PopNode | src/chains/chapter23/ChainChapter23.cs:202-210 | popping one node applies one credit step |
| StructuralMetrics.AccumulateForNode | src/chains/chapter23/ChainChapter23.cs:201-210 | after all pops the target's delta is its dependency on the source |
| StructuralMetrics.CreditFromSource | src/chains/chapter23/ChainChapter23.cs:172-210 | one source's pass and credit phase yield the target's Brandes credit from that source, the single value every completed pass gives |
| StructuralMetrics.ComputeBetweennessForNode | src/chains/chapter23/ChainChapter23.cs:168-214 | the score is half the summed credit over all sources, and never negative |
| StructuralRun.BuildDag | src/chains/chapter23/ChainChapter23.cs:22-35 | the fixed DAG of 7 nodes: sources s1..s5 (0..4) each feed the aggregator m (5), which feeds t (6); the aggregator is node 5 |
| StructuralRun.Cyclomatic | src/chains/chapter23/ChainChapter23.cs:62-73 | m - n + p, with m edges and p weak components |
| StructuralRun.FixedCyclomatic | src/chains/chapter23/ChainChapter23.cs:62-73 | the fixed DAG has 6 edges and one weak component, so with 7 nodes its cyclomatic number is 0 |
| StructuralRun.FixedDiameter | src/chains/chapter23/ChainChapter23.cs:37-47 | the undirected diameter of the fixed DAG is 2 |
| StructuralRun.Merge | src/graphs/chapter23/GraphChapter23.cs:75-81 | a missing diameter reads as -1 and a missing cyclomatic number as int.MinValue; a present value is passed through; the betweenness stays absent (printed as NaN) when missing |
| StructuralRun.FixedStar | src/chains/chapter23/ChainChapter23.cs:22-35 | the mirrored fixed DAG is a star: node 5 is joined once to each other node, and no other pair is joined |
| StructuralRun.StarDependency | src/chains/chapter23/ChainChapter23.cs:172-210 | from any source other than the aggregator, the aggregator is at distance 1 and its dependency is 5 |
| StructuralRun.AggregatorCredits | src/chains/chapter23/ChainChapter23.cs:168-212 | the aggregator's credit from each source is 5, except from itself, which is 0 |
| StructuralRun.AggregatorSum | src/chains/chapter23/ChainChapter23.cs:48-59 | the summed credit is 30, so the reported score is 15 |
| StructuralRun.RunStructuralMetrics | src/chains/chapter23/ChainChapter23.cs:22-92 | the run reports diameter 2, cyclomatic number 0 and the aggregator's betweenness 15, half its summed Brandes credit |
| Automata.TargetsMeaning | src/chains/chapter19/ChainChapter19.cs:97-100 | a state is a target exactly when some transition on the letter leads to it |
| Automata.EdgeTargets | src/chains/chapter19/ChainChapter19.cs:97-100 | the transition scan collects exactly the targets of the matching edges |
| Automata.StepStates | src/chains/chapter19/ChainChapter19.cs:93-101 | one simulation step yields the states reachable by the letter from the current set |
| Automata.StepOfEmpty | src/chains/chapter19/ChainChapter19.cs:103 | the empty set steps to the empty set |
| Automata.RunOfEmpty | src/chains/chapter19/ChainChapter19.cs:103 | once the set is empty it stays empty |
| Automata.RunAppend | src/chains/chapter19/ChainChapter19.cs:91-104 | running a concatenation runs the parts in turn |
| Automata.RunMeansPaths | src/chains/chapter19/ChainChapter19.cs:88-106 | the simulated set is exactly the states ending a path that spells the input |
| Automata.Accepts | src/chains/chapter19/ChainChapter19.cs:88-106 | accepted exactly when the final set meets the final states, that is, when some path spelling the input ends in a final state |
| Automata.EmptyInputAccepted | src/chains/chapter19/ChainChapter19.cs:88-106 | the empty word is accepted exactly when the start state is final |
| Automata.StepWithinTargets | src/chains/chapter19/ChainChapter19.cs:123-131 | a step never leaves the transitions' targets |
| Automata.ExploreLetters | src/chains/chapter19/ChainChapter19.cs:121-138 | exploring one subset over all letters keeps the visited set sound and queues every new successor |
| Automata.ReachedInAutomaton | src/chains/chapter19/ChainChapter19.cs:108-142 | every subset reachable by letters is a state of the subset automaton |
| Automata.SubsetAutomatonUnique | src/chains/chapter19/ChainChapter19.cs:108-142 | the subset automaton's state set is determined by the NFA |
| Automata.DeterminizedSize | src/chains/chapter19/ChainChapter19.cs:108-142 | the count is the number of reachable non-empty subsets, at least 1 |
| Automata.SetEqualsComparer | src/chains/chapter19/ChainChapter19.cs:147-152 | two lists are equal as sets exactly when they hold the same elements |
| Automata.Wrap32 | src/chains/chapter19/ChainChapter19.cs:155-159 | the 32-bit wrap-around of `unchecked` arithmetic: always within int range, and a value already in range is unchanged |
| Automata.SortAscending | src/chains/chapter19/ChainChapter19.cs:158 | the result is sorted and holds the same elements with the same multiplicities |
| Automata.SortedUnique | src/chains/chapter19/ChainChapter19.cs:158 | two sorted lists with the same multiset of elements are equal |
| Automata.GetHashCode | src/chains/chapter19/ChainChapter19.cs:153-161 | the hash of a state list is the fold of 31·h + x over its sorted elements |
| Automata.HashIgnoresOrder | src/chains/chapter19/ChainChapter19.cs:153-161 | lists equal as sets have the same hash, as the comparer requires |
| Automata.DagStep | src/chains/chapter19/ChainChapter19.cs:74-86 | from each single state of the sample automaton, a step follows its transition table |
| Automata.DagSubsets | src/chains/chapter19/ChainChapter19.cs:74-86 | the listed subsets of the sample automaton form its subset automaton |
| Automata.DagSize | src/chains/chapter19/ChainChapter19.cs:108-142 | every subset automaton of the sample has exactly 4 states |
| Automata.DagRuns | src/chains/chapter19/ChainChapter19.cs:74-86 | on the sample automaton "ac" and "bc" end in {3} and "a" in {1} |
| Automata.MergeDefaults | src/chains/chapter19/ChainChapter19.cs:57-65 | missing flags read as false and a missing count as -1 |
| Automata.RunAutomata | src/chains/chapter19/ChainChapter19.cs:20-71 | the answer's accepted flag holds exactly when some path spelling the input ends in a final state, and the DFA has 4 states |
| Automata.AutomataTheory | src/Chapters/Chapter19.cs:98-123 | the theory table reports 4 DFA states, "ac" and "bc" accepted and "a" rejected |
| Automata.AutomataInputs | src/Chapters/Chapter19.cs:125-133 | the 20 benchmark words include the empty word and use only a, b and c |
| MatrixAlgebra.OutDegrees | src/chains/chapter18/ChainChapter18.cs:90-107 | entry i is the sum of row i |
| MatrixAlgebra.InDegrees | src/chains/chapter18/ChainChapter18.cs:90-107 | entry j is the sum of column j |
| MatrixAlgebra.DegreeTotalsAgree | src/chains/chapter18/ChainChapter18.cs:90-107 | total out-degree equals total in-degree |
| MatrixAlgebra.LineSums | src/chains/chapter18/ChainChapter18.cs:97-102 | the double loop accumulates every row and column sum |
| MatrixAlgebra.ComputeDegrees | src/chains/chapter18/ChainChapter18.cs:90-107 | returns the out- and in-degree vectors of the matrix |
| MatrixAlgebra.MatMul | src/chains/chapter18/ChainChapter18.cs:109-123 | entry (i,j) of the product is row i of A dotted with column j of B |
| MatrixAlgebra.RowTimesColumn | src/chains/chapter18/ChainChapter18.cs:117-118 | the innermost loop computes that dot product |
| MatrixAlgebra.FillRow | src/chains/chapter18/ChainChapter18.cs:115-120 | one row of the result is filled with its product entries, other rows untouched |
| MatrixAlgebra.Multiply | src/chains/chapter18/ChainChapter18.cs:109-123 | a fresh array holding the matrix product |
| MatrixAlgebra.Clone | src/chains/chapter18/ChainChapter18.cs:128 | a fresh copy with the same entries |
| MatrixAlgebra.NonZeroDiagonal | src/chains/chapter18/ChainChapter18.cs:131 | true exactly when some diagonal entry is non-zero |
| MatrixAlgebra.ScanPowers | src/chains/chapter18/ChainChapter18.cs:129-134 | the power loop finds a non-zero diagonal exactly when one of A^1..A^(n-1) has one |
| MatrixAlgebra.NextPower | src/chains/chapter18/ChainChapter18.cs:132 | multiplying A^p by A gives A^(p+1) |
| MatrixAlgebra.HasDiagonalOnAnyPower | src/chains/chapter18/ChainChapter18.cs:125-135 | true exactly when some power A^p, p from 1 to n-1, has a non-zero diagonal |
| MatrixAlgebra.PowCountsWalks | src/chains/chapter18/ChainChapter18.cs:125-135 | for a non-negative matrix, entry (i,j) of A^p is positive exactly when there is a walk of length p from i to j |
| MatrixAlgebra.DiagonalMeansClosedWalk | src/chains/chapter18/ChainChapter18.cs:125-135 | the test reports a cycle exactly when there is a closed walk of length 1 to n-1 |
| MatrixAlgebra.UpperTriangularPasses | src/chains/chapter18/ChainChapter18.cs:125-135 | a strictly upper-triangular matrix, an ordered DAG, is reported acyclic |
| MatrixAlgebra.BuildAdjacency | src/chains/chapter18/ChainChapter18.cs:22-34 | the diamond 0→1, 0→2, 1→3, 2→3 as a 4×4 matrix |
| MatrixAlgebra.Reachability | src/chains/chapter18/ChainChapter18.cs:47-57 | returns A^2, and for a non-negative matrix the flag is set exactly when there is a walk of length 1 or 2 from node 0 to node 3 |
| MatrixAlgebra.DiamondTwoPaths | src/chains/chapter18/ChainChapter18.cs:51-52 | the diamond has two walks of length 2 from 0 to 3 |
| MatrixAlgebra.DiamondDegrees | src/chains/chapter18/ChainChapter18.cs:36-45 | out-degrees [2,1,1,0] and in-degrees [0,1,1,2] |
| MatrixAlgebra.MergeDefaults | src/chains/chapter18/ChainChapter18.cs:69-79 | a missing flag reads as false |
| MatrixAlgebra.RunAnalysis | src/chains/chapter18/ChainChapter18.cs:81-87 | the run answers those degrees, r(1->4) true and acyclic true |
| MatrixAlgebra.TwoCycleReportedAcyclic | src/chains/chapter18/ChainChapter18.cs:129-134 | the two-node cycle is reported acyclic by the test as written |
| MatrixAlgebra.SelfLoopReportedAcyclic | src/chains/chapter18/ChainChapter18.cs:129-134 | a one-node self-loop is reported acyclic by the test as written |
| MatrixAlgebra.HasDiagonalUpToN | src/chains/chapter18/ChainChapter18.cs:125-135 | the corrected test checks powers 1 to n |
| MatrixAlgebra.DiagonalUpToNMeansCycle | src/chains/chapter18/ChainChapter18.cs:125-135 | the corrected test reports a cycle exactly when the graph has a closed walk of any length |
| CsvRecords.ReplaceCrLf | src/chains/chapter13/ChainChapter13.cs:28 | never lengthens the text, and text without CR is unchanged |
| CsvRecords.ReplaceCr | src/chains/chapter13/ChainChapter13.cs:28 | no CR is left, the length is kept, and every other character is kept in place |
| CsvRecords.Normalize | src/chains/chapter13/ChainChapter13.cs:28 | the normalised text has no CR and is no longer than the input |
| CsvRecords.NormalizeIdempotent | src/chains/chapter13/ChainChapter13.cs:28 | normalising twice changes nothing |
| CsvRecords.NormalizeCrLf | src/chains/chapter13/ChainChapter13.cs:28 | CR LF, CR and LF all end a line alike |
| CsvRecords.Split | src/chains/chapter13/ChainChapter13.cs:28 | at least one piece, none containing the separator, built only from characters of the text |
| CsvRecords.SplitJoin | src/chains/chapter13/ChainChapter13.cs:28 | joining the pieces with the separator gives back the text |
| CsvRecords.SplitWithoutSeparator | src/chains/chapter13/ChainChapter13.cs:41 | text without the separator is one piece |
| CsvRecords.RemoveEmpty | src/chains/chapter13/ChainChapter13.cs:28 | keeps exactly the non-empty lines |
| CsvRecords.Trim | src/chains/chapter13/ChainChapter13.cs:41 | a slice of the text starting after the leading white space, neither starting nor ending with white space, followed only by white space; empty exactly when the text is all white space |
| CsvRecords.SplitTrimmed | src/chains/chapter13/ChainChapter13.cs:41 | one cell per comma-separated field, each the trimmed field |
| CsvRecords.AssignColumnsMeaning | src/chains/chapter13/ChainChapter13.cs:47-50 | the keys are exactly the assigned headers, and a header with no later duplicate maps to the cell at its position, so the later duplicate wins |
| CsvRecords.RecordOfMeaning | src/chains/chapter13/ChainChapter13.cs:45-50 | over the shorter of the header and cell lists, the keys are exactly those headers, and each header without a later duplicate maps to its cell |
| CsvRecords.Records | src/chains/chapter13/ChainChapter13.cs:42-52 | one record per line after the header |
| CsvRecords.BlankLineRecord | src/chains/chapter13/ChainChapter13.cs:28-50 | a blank line without commas gives one record mapping the first header to the empty string |
| CsvRecords.Preprocess | src/chains/chapter13/ChainChapter13.cs:28 | every resulting line is non-empty and contains no CR or LF |
| CsvRecords.BuildRecords | src/chains/chapter13/ChainChapter13.cs:42-52 | the record loop yields the specified records |
| CsvRecords.ParseLines | src/chains/chapter13/ChainChapter13.cs:35-53 | equals the chain step's records; with any lines there is one record per line after the header |
| CsvRecords.FillRecord | src/chains/chapter13/ChainChapter13.cs:46-50 | the column loop yields the specified record, whose keys are all headers |
| CsvRecords.ParseHeader | src/graphs/chapter13/GraphChapter13.cs:41-48 | the graph's header step yields at least one column |
| CsvRecords.ParseBody | src/graphs/chapter13/GraphChapter13.cs:50-58 | the graph's body step yields non-empty lines without line breaks |
| CsvRecords.MergeRecords | src/graphs/chapter13/GraphChapter13.cs:60-77 | the graph's merge step yields the records of the header and body, and none when the body is missing |
| CsvRecords.PipelinesAgree | src/graphs/chapter13/GraphChapter13.cs:33-74 | the graph pipeline gives the same records as the chain pipeline |
| BenchmarkStats.Samples | src/Benchmark/_common/BenchmarkUtils.cs:55-62 | the elapsed times of the first n calls, in order |
| BenchmarkStats.SortSamples | src/Benchmark/_common/BenchmarkUtils.cs:64 | sorted, and a permutation of the samples |
| BenchmarkStats.TruncDiv | src/Benchmark/_common/BenchmarkUtils.cs:65 | division truncating toward zero, as the `long` cast does |
| BenchmarkStats.MeanWithin | src/Benchmark/_common/BenchmarkUtils.cs:65 | the truncated mean lies between the least and the greatest sample |
| BenchmarkStats.Ceiling | src/Benchmark/_common/BenchmarkUtils.cs:113 | the least integer not below the value |
| BenchmarkStats.RoundHalfEven | src/Benchmark/_common/BenchmarkUtils.cs:119 | the rounded value is within one half of the input |
| BenchmarkStats.RoundMonotone | src/Benchmark/_common/BenchmarkUtils.cs:119 | rounding preserves order |
| BenchmarkStats.RoundWithin | src/Benchmark/_common/BenchmarkUtils.cs:119 | a value between two integers rounds between them |
| BenchmarkStats.RoundIntegral | src/Benchmark/_common/BenchmarkUtils.cs:119 | an integer rounds to itself |
| BenchmarkStats.InterpolateWithin | src/Benchmark/_common/BenchmarkUtils.cs:119 | interpolation stays between its two endpoints |
| BenchmarkStats.InterpolateMonotone | src/Benchmark/_common/BenchmarkUtils.cs:119 | interpolation grows with the weight |
| BenchmarkStats.Rank | src/Benchmark/_common/BenchmarkUtils.cs:111 | the rank p·(n-1) lies in [0, n-1] |
| BenchmarkStats.RankMonotone | src/Benchmark/_common/BenchmarkUtils.cs:111 | a larger percentile has a larger rank |
| BenchmarkStats.Percentile | src/Benchmark/_common/BenchmarkUtils.cs:105-120 | an empty sample list gives 0 |
| BenchmarkStats.PercentileIsRoundedValue | src/Benchmark/_common/BenchmarkUtils.cs:114-119 | the percentile is the rounded interpolation between the samples at floor and ceiling of the rank |
| BenchmarkStats.ValueWithin | src/Benchmark/_common/BenchmarkUtils.cs:111-119 | the interpolated value lies between the samples around it |
| BenchmarkStats.ValueMonotone | src/Benchmark/_common/BenchmarkUtils.cs:111-119 | on sorted samples the interpolated value grows with the percentile |
| BenchmarkStats.PercentileWithin | src/Benchmark/_common/BenchmarkUtils.cs:105-120 | the percentile lies between the least and greatest sample |
| BenchmarkStats.PercentileMonotone | src/Benchmark/_common/BenchmarkUtils.cs:66-67 | p95 is never above p99 |
| BenchmarkStats.PercentileAtWholeRank | src/Benchmark/_common/BenchmarkUtils.cs:114-117 | at a whole rank the percentile is that sample |
| BenchmarkStats.PercentileOfOne | src/Benchmark/_common/BenchmarkUtils.cs:105-117 | one sample is its own percentile |
| BenchmarkStats.SummaryBounds | src/Benchmark/_common/BenchmarkUtils.cs:64-69 | min ≤ mean ≤ max and min ≤ p95 ≤ p99 ≤ max |
| BenchmarkStats.MeasureMany | src/Benchmark/_common/BenchmarkUtils.cs:48-74 | rejects non-positive iterations; otherwise makes one call per iteration, and either stops at the first fault or returns the summary of the sorted samples and the artifact paths |
| BenchmarkStats.Successes | src/Benchmark/_common/BenchmarkUtils.cs:86-93 | the number of successes is at most the number of calls |
| BenchmarkStats.MeasureSuccess | src/Benchmark/_common/BenchmarkUtils.cs:79-100 | rejects non-positive iterations; otherwise counts the true results and reports their rate in [0,1], or stops at the first fault |
| BenchmarkStats.RateWithin | src/Benchmark/_common/BenchmarkUtils.cs:95 | a success count out of n gives a rate in [0,1] |
| BenchmarkStats.AllSucceed | src/Benchmark/_common/BenchmarkUtils.cs:86-95 | when every call returns true, the count is n and the rate is 1 |
| BenchmarkStats.Replace | src/Benchmark/_common/BenchmarkUtils.cs:131 | every occurrence of the character is replaced, and every other character is kept in place |
| BenchmarkStats.SafeNameChars | src/Benchmark/_common/BenchmarkUtils.cs:131 | the safe name replaces '/' and '\\' by '_', keeps every other character, and contains neither separator |
| BenchmarkStats.SafeNameIdempotent | src/Benchmark/_common/BenchmarkUtils.cs:131 | making a safe name safe again changes nothing |
| BenchmarkStats.SeparatorsCollide | src/Benchmark/_common/BenchmarkUtils.cs:131 | names differing only in a '/', '\\' or '_' at one position share their artifact files |
| BenchmarkStats.ArtifactsFor | src/Benchmark/_common/BenchmarkUtils.cs:128-133 | the directory is the one given, else the default; the files are the safe name with "-summary.json" and "-summary.md" |
| BenchmarkStats.BelowIrreflexive | src/Benchmark/_common/BenchmarkUtils.cs:212 | the ordinal key order is irreflexive |
| BenchmarkStats.BelowTransitive | src/Benchmark/_common/BenchmarkUtils.cs:212 | the ordinal key order is transitive |
| BenchmarkStats.BelowTotal | src/Benchmark/_common/BenchmarkUtils.cs:212 | distinct keys are ordered one way or the other |
| BenchmarkStats.BelowAsymmetric | src/Benchmark/_common/BenchmarkUtils.cs:212 | the ordinal key order is asymmetric |
| BenchmarkStats.Insert | src/Benchmark/_common/BenchmarkUtils.cs:212 | inserting a key into an ascending list keeps it ascending and adds exactly that key |
| BenchmarkStats.OrderKeys | src/Benchmark/_common/BenchmarkUtils.cs:206-217 | the theory keys in ascending order, each exactly once |
| BenchmarkStats.AscendingUnique | src/Benchmark/_common/BenchmarkUtils.cs:206-217 | the ascending order of a key set is unique |
| AbHarness.Clamp | src/Benchmark/_common/AbBenchmarkHarness.cs:40 | the result lies in [lo, hi], equals v inside, and the nearer bound outside |
| AbHarness.IndexCounter.constructor | src/Benchmark/_common/AbBenchmarkHarness.cs:33 | the counter starts at 0 |
| AbHarness.IndexCounter.Take | src/Benchmark/_common/AbBenchmarkHarness.cs:39 | returns the old count and increments it |
| AbHarness.NextInput | src/Benchmark/_common/AbBenchmarkHarness.cs:39-41 | hands out the input at the clamped counter and advances it |
| AbHarness.DispenseRun | src/Benchmark/_common/AbBenchmarkHarness.cs:33-43 | over as many iterations as inputs, every input is handed out once, in order |
| AbHarness.Invocations | src/Benchmark/_common/AbBenchmarkHarness.cs:33-56 | the k-th invocation of a pipeline gets the k-th input |
| AbHarness.TrialInput | src/Benchmark/_common/AbBenchmarkHarness.cs:39-41 | the k-th measured call runs the pipeline on the k-th input |
| AbHarness.CheckArguments | src/Benchmark/_common/AbBenchmarkHarness.cs:27-30 | no error exactly when the arguments are valid; otherwise the error of the first failing check, in the source's order: name null, name blank, inputs, chain, graph |
| AbHarness.MeasureBoth | src/Benchmark/_common/AbBenchmarkHarness.cs:33-56 | with no inputs the run is rejected; otherwise the chain runs over every input as "<name>_chain_latency", then the graph as "<name>_graph_latency", the k-th call of each getting the k-th input; a fault in either stops the run there |
| AbHarness.RunLatencyAB | src/Benchmark/_common/AbBenchmarkHarness.cs:20-57 | an argument error is reported before any call; then the empty-input guard; otherwise both measurements over all inputs, succeeding exactly when no call faults |

## Left out

- Floating point: C# `double` is exact `real`, so the rounding of `Average`, of the rank product and of the normalisation is not modelled. 0.95 and 0.99 are exact.
- BenchmarkStats.MeanWithin: the mean is the truncated exact mean. `Enumerable.Average` over `long` rounds in `double` first, so a mean of huge samples may differ.
- BenchmarkStats.Below: the theory keys are ordered ordinally. The source sorts with the culture-sensitive default string comparer.
- GlossaryCentrality.ComputeBetweennessCentrality: scores are proved non-negative. The upper bound 1 is not proved.
- Integer overflow: `int` and `long` are unbounded. Wrap-around is modelled only in the automata hash, where `unchecked` asks for it.
- The plan compiler, Kahn's algorithm and cycle detection are not part of this model. A compiled plan is an input assumed `Valid`.
- Warm-up runs, `Task` concurrency and the parallel branches of the graph pipelines are not modelled. Their steps write disjoint keys, so the sequential order is modelled.
- `Stopwatch` timing is not modelled: each call's elapsed time is an input. File writes, JSON and Markdown text, timestamps and console output are not modelled either; only the artifact paths are.
- AbHarness.Clamp: `Math.Clamp` throws when lo > hi. The harness only calls it with a non-empty input list, so the model requires lo ≤ hi.
- The `Environment.TickCount` input pick in src/Chapters/Chapter19.cs:64 is not modelled, because it is a clock.
- The kernel-function factories, argument dictionaries and per-chapter benchmark classes are plumbing and are not modelled. So is chapter 13's serialisation step, which only formats text.
- Null-reference exceptions from null plans or null node lists cannot arise in the model, because its values are never null.

## Findings

| source | as written | input that shows it | evidently intended | confidence | as-written member | corrected member |
|---|---|---|---|---|---|---|
| src/chains/chapter18/ChainChapter18.cs:129-134 | the acyclicity test checks the diagonal of A^1 … A^(n-1) only | the two-node cycle [[0,1],[1,0]] has a zero diagonal in A^1, and n-1 = 1, so it is reported acyclic; the self-loop [[1]] with n = 1 checks no power at all | check powers 1 … n, since a cycle of length n appears first on the diagonal of A^n | not executed | MatrixAlgebra.TwoCycleReportedAcyclic | MatrixAlgebra.DiagonalUpToNMeansCycle |
