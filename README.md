# cs170 instance generator and solver driver, modelled in Dafny

This project models the deterministic core of a course-project toolkit for
the "drive the TAs home" problem. A car starts at a location and follows a
cycle. Each TA (teaching assistant) riding in it gets off at a car stop and
walks home. The toolkit's parts:

- **Dropoff assigner** (`BaseSolver.find_best_dropoffs`, `dropoffs.dfy`).
  It fills a V x V distance table from the adjacency matrix, where `'x'`
  means no edge. It relaxes the table in place with Floyd-Warshall. Each
  home goes to the nearest car stop, with ties going to the earliest stop.
  It returns the walking cost and the dropoff dictionary.
- **Random cycle seed** (`generate`, `random_cycle.dfy`). It walks along
  arbitrary out-edges until a vertex repeats, then closes the route back to
  the start, directly or through `shortest_path`.
- **Solver driver** (`solver.py`, `solver.dfy`):
  - the output-file text of `convertToFile`;
  - the parsing of the `-m` mode;
  - the cheapest-result rule and the "improved" flag of `solve`;
  - the skip / no-write decisions of `solve_from_file`.
- **Best-bound table merge** (`sql.py`, `merge.dfy`). `compare` is a
  function. The merge loop is a method proved equal to the recursive merge.
- **Instance generator** (`generator.py`, `generator.dfy`). `Vertex` and
  `GraphGenerator` are classes whose fields the methods update in place:
  - vertex creation, start and home selection, and symmetric edge
    insertion in `genGraph`;
  - the count behind `avgDegree`;
  - the adjacency lists, `dfs` and the 2-cycle filter of `cycleFinder`;
  - the instance-file text of `writeInput`.

Shared modules:

- `results.dfy`: `Option` and `Result`.
- `weights.dfy`:
  - exact non-negative weights with an explicit infinity (`Ext`);
  - adjacency entries (`Entry`, where `NoEdge` is `'x'`).
- `seqs.dfy`: distinctness and counting facts.
- `text.dfy`: Python's `str.split()`, `strip()`, `str(int)`, `int(str)` and
  line splitting, as far as the output and instance files use them.

Random draws are modelled as arbitrary choices (`:|`), or as parameters where
the value matters: the coordinates, the Laplace degrees and `dist`.
`nx.shortest_path` is a function parameter that returns `None` when there is
no path. The solvers that `solve` runs are a parameter `run`, which gives
each solver object's answer.

## Model

| member | source | states |
|---|---|---|
| Dropoffs.InitTable | solver_toolbox.py:36-45 | a fresh V x V table: 0 on the diagonal (whatever the matrix holds there), infinity for 'x', the matrix weight elsewhere; the matrix itself is not touched |
| Dropoffs.FloydWarshall | solver_toolbox.py:48-51 | after the in-place k/i/j loop every entry is the Floyd-Warshall distance D(i, j), the minimum over walks through all locations |
| Dropoffs.RelaxRow | solver_toolbox.py:50-51 | relaxing row i through k in place lifts exactly row i from round k to round k + 1, although the row reads entries it may already have overwritten |
| Dropoffs.Stable | solver_toolbox.py:48-51 | round k leaves row k and column k unchanged, which is why relaxing in place is sound |
| Dropoffs.DistNonNeg | solver_toolbox.py:48-51 | with non-negative weights every relaxed entry is non-negative |
| Dropoffs.DiagonalZero | solver_toolbox.py:41-51 | with non-negative weights the diagonal stays 0 in every round |
| Dropoffs.DistAtMostInit | solver_toolbox.py:48-51 | relaxation never increases an entry: each stays at most its initial value |
| Dropoffs.RelaxationBounds | solver_toolbox.py:36-51 | the final table is bounded by the initial one and has 0 on the diagonal |
| Dropoffs.Witness | solver_toolbox.py:47-51 | for every round there is a walk with inner locations below k whose weight is exactly the table entry |
| Dropoffs.DistIsLowerBound | solver_toolbox.py:47-51 | no walk with inner locations below k weighs less than the round-k entry |
| Dropoffs.ShortestDistance | solver_toolbox.py:47-51 | the final entry is the minimum walk weight from i to j: some walk attains it and none is lighter |
| Dropoffs.TriangleInequality | solver_toolbox.py:47-51 | the final table satisfies D(i, j) <= D(i, m) + D(m, j) |
| Dropoffs.IndexOf | solver_toolbox.py:56 | list.index: the first position holding the name, and None exactly when the name is absent (where Python raises ValueError) |
| Dropoffs.HomeIndices | solver_toolbox.py:54-56 | succeeds exactly when every home is a location, giving each home's first index; otherwise fails with the first unknown home |
| Dropoffs.TranslateHomes | solver_toolbox.py:54-56 | the appending loop returns exactly HomeIndices |
| Dropoffs.HomeIndicesPrefixFailure | solver_toolbox.py:54-56 | once a prefix of the homes fails to translate, the whole list fails with the same error |
| Dropoffs.HomeIndicesBelow | solver_toolbox.py:54-56 | every translated home is a location index |
| Dropoffs.NearestPos | solver_toolbox.py:65-68 | the kept stop is no farther than any stop and strictly nearer than every earlier one: the first nearest stop in list order |
| Dropoffs.ChooseDropoff | solver_toolbox.py:65-68 | the inner loop keeps None exactly when there are no stops, and otherwise the first nearest stop |
| Dropoffs.AddHomeKeys | solver_toolbox.py:70 | `dropoffs[s] = dropoffs.get(s, []) + [home]` keeps the keys in insertion order and appends a new key last |
| Dropoffs.AddHomeHomes | solver_toolbox.py:70 | the update adds exactly one home to the dictionary's lists |
| Dropoffs.AddHomeEntries | solver_toolbox.py:70 | other keys keep their lists; the list of s gains the home at its end |
| Dropoffs.AddHomeUnique | solver_toolbox.py:70 | the update never duplicates a key |
| Dropoffs.AssignKeepsEveryHome | solver_toolbox.py:62-70 | the concatenated dropoff lists are a permutation of the home indices: each home is listed exactly once |
| Dropoffs.AssignKeysAreStops | solver_toolbox.py:62-70 | keys are unique and every key is a car stop |
| Dropoffs.AssignUsesNearest | solver_toolbox.py:62-70 | every home is listed under the stop nearest to it |
| Dropoffs.AddHomeAtNearest | solver_toolbox.py:62-70 | leaving one more home at its nearest stop keeps every home at its nearest stop |
| Dropoffs.AssignSnoc | solver_toolbox.py:62-71 | one more home extends the dictionary by that home at its nearest stop and adds its distance to the total |
| Dropoffs.Record | solver_toolbox.py:70-71 | one pass of the home loop moves the dictionary and the total from the first t homes to the first t + 1 |
| Dropoffs.AssignAll | solver_toolbox.py:62-71 | the home loop returns the nearest-stop assignment and the sum of the walking distances, or NoCarStops when homes exist but the stop list is empty |
| Dropoffs.FindBestDropoffs | solver_toolbox.py:20-73 | find_best_dropoffs returns BestDropoffs: an unknown home fails, an empty stop list with homes fails, otherwise the total walking cost and the nearest-stop dictionary |
| RandomCycle.ExploredBound | random_sol.py:21-24 | the walk holds distinct vertices of the graph, so the loop runs at most V times |
| RandomCycle.ClosedRouteIsCycle | random_sol.py:18-30 | a closed route starts and ends at start, follows edges, has the explored walk as its prefix, and that walk has at most V vertices |
| RandomCycle.Generate | random_sol.py:9-30 | generate returns one of the outcomes its random choices allow: path + [start] when the walk is back at start, path + shortest path otherwise, DeadEnd at a vertex with no out-edge, NoPath when shortest_path fails; each route is a closed walk of at least two vertices |
| Solver.Names | solver.py:82-83 | `list_locs[node]` for each index, in order |
| Solver.JoinNames | solver.py:82-93 | appending name + ' ' per index, then strip(), gives the names joined by single spaces with no trailing space |
| Solver.ConvertToFile | solver.py:80-96 | the text built is OutputText: the path line, the count line, then one line per dropoff entry |
| Solver.NamesLineText | solver.py:82-84 | a names line holds no newline |
| Solver.DropLinesLayout | solver.py:89-95 | the dropoff part has one line per dictionary entry in order: the stop's name, then its homes' names |
| Solver.DropLinesNewlines | solver.py:89-95 | the dropoff part holds exactly one newline per entry and ends with one |
| Solver.OutputLayout | solver.py:81-95 | the file has 2 + \|keys\| lines: the path names, str(\|keys\|), then one line per entry |
| Solver.OutputReadBack | solver.py:81-95 | split() and int() on the file's lines give back the path names, the number of entries and each entry's names |
| Solver.OutputNewlines | solver.py:82-95 | the text holds exactly 2 + \|keys\| newlines and ends with one |
| Solver.ModeOf | solver.py:21-26 | `solvers_mode[name]` finds the mode whose key is name, or raises KeyError when no mode has it |
| Solver.ParseMode | solver.py:58-60 | without "-m" the mode is "ilp" |
| Solver.ParseModeAt | solver.py:58-60 | with the first "-m" at i: IndexError when it is last, otherwise success exactly when params[i + 1] names a mode, which is then the mode chosen |
| Solver.Solvers | solver.py:21-26 | every mode runs at least one solver |
| Solver.BestAt | solver.py:49-66 | the loop keeps the sentinel exactly when every cost is infinite, otherwise the first result of least cost |
| Solver.ChosenIsCheapest | solver.py:49-66 | the kept solution is the sentinel or a solver result, and no result is cheaper |
| Solver.Solve | solver.py:36-68 | solve returns Decide: a mode error, or the improved flag of line 68 together with the kept solution |
| Solver.NotImprovedMeansNoBetterResult | solver.py:68 | without --force-write, "not improved" holds exactly when a bound is stored and no solver's cost is below it |
| Solver.SolveFromFile | solver.py:98-127 | skips exactly when the stored optimal flag is truthy and --no-skip is absent; otherwise fails on a mode error, writes nothing when not improved, and else writes the convertToFile text of the kept solution |
| TableMerge.Compare | sql.py:55-76 | returns one of its two rows, on different names the one with the greater name; pops at least one side and always pops the side it returns; pops both exactly when the names match; on different names returns the greater name; on equal names the returned row is optimal over a non-optimal one, or no dearer |
| TableMerge.CompareTies | sql.py:66-76 | at equal cost with neither row optimal the remote row wins; with both optimal the local row wins |
| TableMerge.MergeTables | sql.py:79-91 | the loop plus the leftover append returns Merge(local, remote) |
| TableMerge.MergeRowsFromInputs | sql.py:79-91 | every emitted row is a row of the local or the remote table |
| TableMerge.MergeLength | sql.py:83-91 | max(\|local\|, \|remote\|) <= \|output\| <= \|local\| + \|remote\| |
| TableMerge.MergeEndsWithLeftover | sql.py:79-91 | the loop stops with one side exhausted; the output is the rows it emitted (one per turn, one or two pops per turn) followed by exactly the rows it never popped, unchanged and in order |
| TableMerge.Popped | sql.py:79-89 | the loop pops no more rows than each side holds, and it stops only when one side is used up |
| TableMerge.AsWrittenKeepsWorseRow | sql.py:55-101 | on ascending tables, local [a, b not optimal] and remote [b optimal]: the output is [remote b, local a, local b], and REPLACE INTO keeps the worse local row for b |
| TableMerge.CompareAscending | sql.py:55-59 | the corrected compare returns one of its two rows, the one with the smaller name on different names, and agrees with compare on equal names |
| TableMerge.AscendingRowsFromInputs | sql.py:79-91 | every row of the corrected merge comes from one of the tables |
| TableMerge.MergeAscendingSorted | sql.py:79-91 | on ascending tables the corrected merge is ascending, so each input file appears once |
| TableMerge.MergeAscendingKeepsBetter | sql.py:55-91 | a file present in both tables keeps, in the corrected merge, the row compare prefers |
| Generator.NoEdges | generator.py:18 | a row of n 'x' markers |
| Generator.Vertex.constructor | generator.py:14-19 | a new vertex has its coordinates and node type, n 'x' entries and degree 0 |
| Generator.Placed | generator.py:38-40 | each location at its drawn coordinates with node type 0 |
| Generator.Join | generator.py:60-63 | joining i to the listed vertices writes dist(v, i) at [i][v] and [v][i] for each listed v and changes no other entry |
| Generator.JoinKeeps | generator.py:53-63 | edge insertion keeps the matrix symmetric and free of self loops, and never overwrites an existing weight |
| Generator.JoinCount | generator.py:56-64 | each new neighbour adds exactly two non-'x' entries |
| Generator.GraphGenerator.constructor | generator.py:26-31 | no vertices, start 0, no homes |
| Generator.GraphGenerator.CreateVertices | generator.py:38-40 | one fresh vertex per location at the drawn coordinates, each with n 'x' entries and degree 0 |
| Generator.GraphGenerator.DrawStart | generator.py:42 | randint(0, high) fails exactly when high <= 0 and otherwise draws a start below high |
| Generator.GraphGenerator.DrawHomes | generator.py:44-49 | the loop adds exactly numHomes new distinct homes, all below high |
| Generator.GraphGenerator.DrawStartAndHomes | generator.py:42-49 | draws from randint(0, high): RandIntError exactly when high <= 0, HomesNeverEnd exactly when 0 < high < numHomes, otherwise numHomes distinct homes and a start, all below high |
| Generator.GraphGenerator.DrawStartAndHomesAsWritten | generator.py:42-49 | the draws as written fail with at most one location, never end when every location is a home, and otherwise draw numHomes distinct homes and a start, all below numLocations - 1, so never the last location |
| Generator.GraphGenerator.PlaceAndDraw | generator.py:38-49 | the vertices are placed with no edge, then the start and homes are drawn as written, below numLocations - 1: RandIntError exactly when there is at most one location, HomesNeverEnd exactly when there are more than one but no more than homes |
| Generator.GraphGenerator.AddEdge | generator.py:62-63 | the edge i -- v gets the weight in both rows; nothing else changes |
| Generator.GraphGenerator.JoinNext | generator.py:56-64 | an accepted draw picks a vertex other than i, not yet joined, whose entry is 'x', and joins it |
| Generator.GraphGenerator.JoinAll | generator.py:56-64 | the while loop joins i to exactly max(degree, 0) distinct free vertices; degrees and coordinates are unchanged |
| Generator.GraphGenerator.InsertEdges | generator.py:52-64 | vertex i's degree is set and i is joined to max(degree, 0) distinct vertices that had 'x' in row i; nothing else changes |
| Generator.GraphGenerator.InsertStep | generator.py:51-64 | one vertex more handled, or, with no change, the report that vertex i has fewer free slots than its degree |
| Generator.GraphGenerator.InsertLoop | generator.py:51-64 | the for loop handles every vertex up to the one it stops at, keeping symmetry, no self loops and two entries per edge |
| Generator.GraphGenerator.InsertAllEdges | generator.py:51-64 | from the pre-loop state: every vertex handled, or the first vertex whose degree exceeds its free slots |
| Generator.GraphGenerator.AllInserted | generator.py:51-64 | after every vertex is handled: symmetric, no self loops, 2 x (sum of positive degrees) entries, the drawn degrees, unchanged points |
| Generator.GraphGenerator.GenGraph | generator.py:36-64 | genGraph gives RandIntError with at most one location and HomesNeverEnd when numLocations - 1 is too few for the homes. EdgesNeverEnd names a vertex with too few free slots. Otherwise the graph is symmetric with no self loops, has 2 x (sum of positive degrees) entries, and has the drawn degrees, and numHomes homes and a start all below numLocations - 1 |
| Generator.GraphGenerator.AvgDegree | generator.py:79-85 | the numerator is the number of non-'x' entries; None (ZeroDivisionError) exactly when there are no locations |
| Generator.Neighbours | generator.py:105-107 | the columns of the non-'x' entries, exactly those, in strictly increasing order |
| Generator.AdjacencyOf | generator.py:101-107 | one list per vertex, each its row's Neighbours |
| Generator.GraphGenerator.NeighbourList | generator.py:105-107 | the inner loop returns Neighbours(row) |
| Generator.GraphGenerator.AdjacencyLists | generator.py:101-107 | the loop builds AdjacencyOf(matrix), which lists only vertices |
| Generator.AdjacencyClosed | generator.py:101-107 | lists built from a square matrix name only its vertices |
| Generator.AdjacencySymmetric | generator.py:101-107 | from a symmetric matrix, v is listed for u exactly when u is listed for v |
| Generator.AdjacencyNoSelfLoops | generator.py:101-107 | from a matrix without self loops no vertex lists itself |
| Generator.PushNeighbours | generator.py:129-132 | pushes (next, path + [next]) for each neighbour not on the path, in order |
| Generator.DfsStep | generator.py:124-132 | popping the top entry yields its path when it has reached end and otherwise pushes its extensions; stack and yielded paths keep their invariants and the measure drops |
| Generator.Dfs | generator.py:122-132 | every yielded path is non-empty, ends at end, follows edges from start, repeats no vertex and meets end only at its last step; [end] is yielded exactly when end is a neighbour of start |
| Generator.Rooted | generator.py:109 | each yielded path prefixed by its node |
| Generator.RootedCandidates | generator.py:109 | each rooted path is a dfs cycle candidate, and one is shorter than three exactly when the node lists itself |
| Generator.KeepLong | generator.py:110 | fails (IndexError at cy[2]) exactly when some cycle has fewer than three vertices; otherwise keeps exactly the cycles whose first and third vertices differ |
| Generator.KeptIsCycle | generator.py:109-110 | a kept candidate is a cycle of at least three distinct vertices along edges |
| Generator.GraphGenerator.CyclesOf | generator.py:103-110 | on a given graph: IndexError exactly when some vertex lists itself, otherwise only real cycles of three or more vertices |
| Generator.GraphGenerator.CycleFinder | generator.py:99-110 | with no graph given, CyclesOf on the adjacency lists of the generator's matrix; with a graph, CyclesOf on it |
| Generator.GraphGenerator.IndexLine | generator.py:141-142 | the location indices 0..n-1, each followed by a space |
| Generator.GraphGenerator.HomeLine | generator.py:145-146 | the homes, in set iteration order, each followed by a space |
| Generator.GraphGenerator.RowLine | generator.py:150-151 | a row's entries, each followed by a space |
| Generator.GraphGenerator.HeaderText | generator.py:139-147 | the first five lines: n, numHomes, the indices, the homes, the start |
| Generator.GraphGenerator.RowsText | generator.py:149-152 | one line per matrix row after the header |
| Generator.GraphGenerator.WriteInput | generator.py:134-154 | nothing for -1; otherwise "input<k>.txt" and InputText of the generator's state |
| Generator.InputLinesSingle | generator.py:139-152 | no line of the instance file holds a newline |
| Generator.InputRoundTrip | generator.py:134-154 | splitting the file into lines gives back exactly the lines written |
| Generator.IndicesReadBack | generator.py:141-146 | a line of indices splits back into those indices |
| Generator.RowLayout | generator.py:149-152 | a matrix line splits back into its entries, 'x' exactly where there is no edge |
| Generator.HeaderLayout | generator.py:139-147 | lines 0-4 are n, numHomes, the indices 0..n-1, the homes and the start |
| Generator.RowsLayout | generator.py:149-152 | line 5 + i splits into row i's n entries, 'x' exactly where there is no edge |
| Generator.InputLayout | generator.py:139-152 | the file has 5 + n lines: n, numHomes, 0..n-1, the homes, the start, and then the n matrix rows |
| Text.ParseNatToString | solver.py:88 | int(str(n)) == n for the dropoff count |

## Left out

- The integer-programming, brute-force and naive solvers (solver.py:17-19) are defined in no available file. Each solver's answer is the parameter `run`. The stub solvers `randomSolveJS` and `bruteForceJS` are not modelled.
- SQLite reads and writes, the `input()` prompts and the printing are I/O. The stored bound and optimal flag are parameters of `Solve` and `SolveFromFile`. The merge works on the row lists that the queries return.
- The outer loop of `merge_tables` over saved tables resets `best_results` for each table (sql.py:45-53). Only one local/remote merge is modelled.
- `utils.read_file`, `utils.write_to_file`, `data_parser` and the output-path helpers are not part of this model. `ConvertToFile` and `WriteInput` return the text (and file name) instead of writing it.
- Floating point:
  - `dist` (sqrt and round to 5 places) is the parameter `dist`.
  - Weights are exact non-negative reals.
  - `str()` of a float weight is the parameter `fmt`, assumed to print one word other than 'x'.
  - `AvgDegree` divides exactly, on reals.
- `Dropoffs.FindBestDropoffs` requires non-negative weights. The relaxation facts rely on this (for example the diagonal staying 0). It also requires every car stop to be a location index: an out-of-range stop raises IndexError in Python, which is not modelled.
- Dropoffs.FindBestDropoffs: it also requires no more location names than matrix rows. With more names, a home whose index has no row raises IndexError in Python, which is not modelled. Fewer names are allowed.
- Solver.ConvertToFile: it requires every location name to be a non-empty word without whitespace (`AllWords`). `utils.read_file` and `data_parser` are not part of this model; the names are taken to be the whitespace-separated tokens of the input file's location line. A name that is empty or has surrounding whitespace could change what `strip()` removes, and that output is not modelled.
- Solver.SolveFromFile: it requires the same of the names (`AllWords`). It also requires the answers of the solvers the mode selects to name locations of the instance (`AnswersIn`). A solver answer naming a missing location raises IndexError in `convertToFile`, which is not modelled.
- The connectivity check through `scipy` `connected_components` and the regeneration it drives (generator.py:66-70, 87-97) are not modelled. Neither are the print of the average degree, the printing of cycles (generator.py:112-120), `serializer` and the visualiser.
- The Laplace degree draw of line 52 is the parameter `degrees` of `GenGraph`. Its truncation with `int()` is assumed done.
- The draws that the insertion loop rejects (i itself, a vertex already joined, an existing edge) change no state. Only accepted draws are modelled. When a vertex has fewer free slots than its degree, the source loops forever; the model reports `EdgesNeverEnd` instead.
- Generator.GraphGenerator.InsertLoop: its state is stated through the predicate `Inserted` (symmetry, no self loops, entry count, degrees, unchanged points), not entry by entry. InsertEdges and `Join` give the entry-level account of one vertex.
- Generator.Dfs: only soundness is proved (every yielded path is a simple path to end), plus the exact condition for yielding [end]. That every simple path is found is not proved.
- Generator.GraphGenerator.CycleFinder: a caller-supplied graph must be closed (every listed neighbour a vertex). Its keys are the indices 0..k-1. A graph whose lists name missing vertices raises KeyError in Python, which is not modelled.
- Generator.GraphGenerator.WriteInput: the order in which Python iterates `homeList` is the parameter `homeOrder`.
- RandomCycle.Generate: `random.choice` is an arbitrary choice among the out-edges. `shortest_path` is only assumed to return walks to the start, so shortest-ness is not checked.
- lemmas.py, damage.py, files.py and the unfinished solver-toolbox.py hold stubs or I/O only and are not modelled.

## Findings

| source | as written | input that shows it | evidently intended | confidence | as-written member | corrected member |
|---|---|---|---|---|---|---|
| sql.py:56-59 | on different names `compare` emits the row with the greater name, though both tables are read ORDER BY input_file ascending; the smaller head is then stranded as leftover, and a file present in both tables is emitted twice, with REPLACE INTO keeping the later, worse row | local [("a", 5, not optimal), ("b", 3, not optimal)], remote [("b", 1, optimal)]: output is remote b, local a, local b, and b ends up non-optimal | emit the smaller name first, a sorted merge in which each file appears once with the preferred row | not executed | TableMerge.AsWrittenKeepsWorseRow | TableMerge.MergeAscendingSorted |
| generator.py:42-46 | `np.random.randint(0, self.numLocations - 1)` excludes the last location: it is never the start or a home, one location raises ValueError, and with numHomes == numLocations the home loop never ends | numLocations = numHomes = 3: only 0 and 1 can be drawn, so the third home is never found | `randint(0, self.numLocations)`, drawing among all locations | not executed | Generator.GraphGenerator.DrawStartAndHomesAsWritten | Generator.GraphGenerator.DrawStartAndHomes |
