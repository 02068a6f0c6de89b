/**
 * The instance generator of generator.py: vertices with adjacency lists
 * ('x' for no edge), random symmetric edge insertion, distinct home
 * selection, the edge count behind the average degree, the cycle search
 * and the layout of the instance file.  Random draws are arbitrary choices
 * (or parameters), and the Euclidean distance, computed in floating point,
 * is a parameter.
 */
module Generator {
  import opened Results
  import opened Weights
  import opened Seqs
  import opened Text

  /** A row of n 'x' markers. */
  function NoEdges(n: nat): (row: seq<Entry>)
    ensures |row| == n && forall j :: 0 <= j < n ==> row[j] == NoEdge
  {
    seq(n, _ => NoEdge)
  }

  /** A location of a generated instance (lines 13-19). */
  class Vertex {
    var x: real
    var y: real
    var nodeType: int
    var adjList: seq<Entry>
    var degree: int

    /** Vertex.__init__: no neighbours yet, degree 0. */
    constructor (x: real, y: real, nodeType: int, numLocations: nat)
      ensures this.x == x && this.y == y && this.nodeType == nodeType
      ensures adjList == NoEdges(numLocations) && degree == 0
    {
      this.x := x;
      this.y := y;
      this.nodeType := nodeType;
      adjList := NoEdges(numLocations);
      degree := 0;
    }
  }

  // ---------------------------------------------------------------------------
  // Facts about adjacency matrices

  type Matrix = seq<seq<Entry>>

  ghost predicate Square(m: Matrix)
  {
    forall a :: 0 <= a < |m| ==> |m[a]| == |m|
  }

  /** Undirected: the entry at [a][b] is the entry at [b][a]. */
  ghost predicate Symmetric(m: Matrix)
  {
    Square(m) && forall a, b {:trigger m[a][b]} :: 0 <= a < |m| && 0 <= b < |m| ==> m[a][b] == m[b][a]
  }

  ghost predicate NoSelfLoops(m: Matrix)
  {
    Square(m) && forall a :: 0 <= a < |m| ==> m[a][a] == NoEdge
  }

  /** The number of non-'x' entries of a row. */
  function RowCount(row: seq<Entry>): nat
  {
    if row == [] then 0 else RowCount(row[..|row| - 1]) + (if row[|row| - 1] != NoEdge then 1 else 0)
  }

  /** The number of non-'x' entries of a matrix. */
  function CountEntries(m: Matrix): nat
  {
    if m == [] then 0 else CountEntries(m[..|m| - 1]) + RowCount(m[|m| - 1])
  }

  /** Writing an edge into an 'x' slot adds one to the row's count. */
  lemma {:induction false} RowCountUpdate(row: seq<Entry>, b: nat, e: Entry)
    requires b < |row| && row[b] == NoEdge && e != NoEdge
    ensures RowCount(row[b := e]) == RowCount(row) + 1
    decreases |row|
  {
    var r := row[b := e];
    if b < |row| - 1 {
      assert r[..|r| - 1] == row[..|row| - 1][b := e];
      RowCountUpdate(row[..|row| - 1], b, e);
    } else {
      assert r[..|r| - 1] == row[..|row| - 1];
    }
  }

  /** Replacing one row changes the count by the difference of the row counts. */
  lemma {:induction false} CountEntriesUpdate(m: Matrix, a: nat, row: seq<Entry>)
    requires a < |m|
    ensures CountEntries(m[a := row]) + RowCount(m[a]) == CountEntries(m) + RowCount(row)
    decreases |m|
  {
    var r := m[a := row];
    if a < |m| - 1 {
      assert r[..|r| - 1] == m[..|m| - 1][a := row];
      CountEntriesUpdate(m[..|m| - 1], a, row);
    } else {
      assert r[..|r| - 1] == m[..|m| - 1];
    }
  }

  lemma {:induction false} RowCountNoEdges(n: nat)
    ensures RowCount(NoEdges(n)) == 0
  {
    if n > 0 {
      assert NoEdges(n)[..n - 1] == NoEdges(n - 1);
      RowCountNoEdges(n - 1);
    }
  }

  lemma {:induction false} CountEntriesEmpty(m: Matrix)
    requires forall a :: 0 <= a < |m| ==> m[a] == NoEdges(|m[a]|)
    ensures CountEntries(m) == 0
  {
    if m != [] {
      CountEntriesEmpty(m[..|m| - 1]);
      RowCountNoEdges(|m[|m| - 1]|);
    }
  }

  /** The j of a row, other than i, still holding 'x': where vertex i can still get a neighbour. */
  function FreeSlots(row: seq<Entry>, i: nat): set<nat>
  {
    set j: nat | j < |row| && j != i && row[j] == NoEdge
  }

  /** Each location at its coordinates, with node type 0, as lines 38-40 create them. */
  function Placed(coords: seq<(real, real)>): (ps: seq<(real, real, int)>)
    ensures |ps| == |coords|
    ensures forall t :: 0 <= t < |coords| ==> ps[t] == (coords[t].0, coords[t].1, 0)
  {
    seq(|coords|, t requires 0 <= t < |coords| => (coords[t].0, coords[t].1, 0))
  }

  /** The sum of the positive degrees. */
  function SumPositive(ds: seq<int>): nat
  {
    if ds == [] then 0 else SumPositive(ds[..|ds| - 1]) + (if ds[|ds| - 1] > 0 then ds[|ds| - 1] else 0)
  }

  /** Adding one more degree to the prefix. */
  lemma SumPositiveSnoc(ds: seq<int>, i: nat)
    requires i < |ds|
    ensures SumPositive(ds[..i + 1]) == SumPositive(ds[..i]) + (if ds[i] > 0 then ds[i] else 0)
  {
    assert ds[..i + 1][..i] == ds[..i];
  }

  /** The degrees written so far followed by the old ones, one step further. */
  lemma PrefixStep(ds: seq<int>, d: seq<int>, d0: seq<int>, i: nat)
    requires |ds| == |d0| && i < |ds| && d == ds[..i] + d0[i..]
    ensures d[i := ds[i]] == ds[..i + 1] + d0[i + 1..]
  {
  }

  /**
   * The matrix after vertex i was joined to every vertex listed in `added`: both
   * entries of each new edge hold dist(v, i), as lines 62-63 write them.
   */
  function Join(m: Matrix, i: nat, added: seq<nat>, dist: (nat, nat) -> real): (r: Matrix)
    requires Square(m)
    ensures |r| == |m| && Square(r)
    ensures forall a, b :: 0 <= a < |m| && 0 <= b < |m| ==>
      r[a][b] == (if a == i && b in added then Edge(dist(b, i))
                  else if b == i && a in added then Edge(dist(a, i))
                  else m[a][b])
  {
    seq(|m|, a requires 0 <= a < |m| =>
      seq(|m|, b requires 0 <= b < |m| =>
        if a == i && b in added then Edge(dist(b, i))
        else if b == i && a in added then Edge(dist(a, i))
        else m[a][b]))
  }

  /** Joining one more vertex v is the pair of writes of lines 62-63. */
  lemma JoinStep(m: Matrix, i: nat, added: seq<nat>, v: nat, dist: (nat, nat) -> real)
    requires Square(m) && i < |m| && v < |m| && v != i && v !in added && i !in added
    ensures var j := Join(m, i, added, dist);
      Join(m, i, added + [v], dist) == j[i := j[i][v := Edge(dist(v, i))]][v := j[v][i := Edge(dist(v, i))]]
  {
    var j := Join(m, i, added, dist);
    var l := Join(m, i, added + [v], dist);
    var r := j[i := j[i][v := Edge(dist(v, i))]][v := j[v][i := Edge(dist(v, i))]];
    forall a | 0 <= a < |m|
      ensures l[a] == r[a]
    {
      assert |l[a]| == |r[a]|;
      forall b | 0 <= b < |m|
        ensures l[a][b] == r[a][b]
      {
      }
    }
  }

  lemma JoinNothing(m: Matrix, i: nat, dist: (nat, nat) -> real)
    requires Square(m)
    ensures Join(m, i, [], dist) == m
  {
    var j := Join(m, i, [], dist);
    forall a | 0 <= a < |m|
      ensures j[a] == m[a]
    {
    }
  }

  /**
   * What inserting the edges of one vertex keeps (lines 53-63): the matrix
   * stays symmetric and free of self loops, and no existing weight is
   * overwritten.
   */
  lemma JoinKeeps(m: Matrix, i: nat, added: seq<nat>, dist: (nat, nat) -> real)
    requires Symmetric(m) && i < |m|
    requires forall t :: 0 <= t < |added| ==> added[t] in FreeSlots(m[i], i)
    ensures Symmetric(Join(m, i, added, dist))
    ensures NoSelfLoops(m) ==> NoSelfLoops(Join(m, i, added, dist))
    ensures forall a, b :: 0 <= a < |m| && 0 <= b < |m| && m[a][b] != NoEdge ==> Join(m, i, added, dist)[a][b] == m[a][b]
  {
    assert i !in added;
  }

  /** Each new neighbour of i adds exactly two entries, [i][v] and [v][i] (line 64 counts it once). */
  lemma {:induction false} JoinCount(m: Matrix, i: nat, added: seq<nat>, dist: (nat, nat) -> real)
    requires Symmetric(m) && i < |m|
    requires Distinct(added) && forall t :: 0 <= t < |added| ==> added[t] in FreeSlots(m[i], i)
    ensures CountEntries(Join(m, i, added, dist)) == CountEntries(m) + 2 * |added|
    decreases |added|
  {
    if added == [] {
      JoinNothing(m, i, dist);
    } else {
      var init := added[..|added| - 1];
      var v := added[|added| - 1];
      DropLast(added, init, v, FreeSlots(m[i], i));
      JoinCount(m, i, init, dist);
      assert i !in init;
      JoinCountStep(m, i, init, v, dist);
    }
  }

  /** A distinct list drawn from `free`, split before its last element. */
  lemma DropLast(added: seq<nat>, init: seq<nat>, v: nat, free: set<nat>)
    requires added != [] && init == added[..|added| - 1] && v == added[|added| - 1]
    requires Distinct(added) && forall t :: 0 <= t < |added| ==> added[t] in free
    ensures added == init + [v]
    ensures Distinct(init) && forall t :: 0 <= t < |init| ==> init[t] in free
    ensures v in free && v !in init
  {
    assert forall t :: 0 <= t < |init| ==> init[t] == added[t];
  }

  /** Joining i to one more free slot v adds the entries (i, v) and (v, i). */
  lemma JoinCountStep(m: Matrix, i: nat, init: seq<nat>, v: nat, dist: (nat, nat) -> real)
    requires Symmetric(m) && i < |m| && i !in init && v in FreeSlots(m[i], i) && v !in init
    ensures CountEntries(Join(m, i, init + [v], dist)) == CountEntries(Join(m, i, init, dist)) + 2
  {
    var j := Join(m, i, init, dist);
    JoinStep(m, i, init, v, dist);
    OpenSlot(m, i, init, dist, v);
    assert j[v][i] == m[v][i];
    CountTwoMore(j, i, v, Edge(dist(v, i)));
  }

  /** Filling the empty slots (i, v) and (v, i) adds two entries. */
  lemma CountTwoMore(j: Matrix, i: nat, v: nat, e: Entry)
    requires Square(j) && i < |j| && v < |j| && i != v && e != NoEdge
    requires j[i][v] == NoEdge && j[v][i] == NoEdge
    ensures CountEntries(j[i := j[i][v := e]][v := j[v][i := e]]) == CountEntries(j) + 2
  {
    var row := j[i][v := e];
    RowCountUpdate(j[i], v, e);
    CountEntriesUpdate(j, i, row);
    var mid := j[i := row];
    assert mid[v] == j[v];
    RowCountUpdate(j[v], i, e);
    CountEntriesUpdate(mid, v, j[v][i := e]);
  }

  /** Outside i and the vertices already joined, row i of the join is 'x' exactly where row i of m is. */
  lemma OpenSlot(m: Matrix, i: nat, added: seq<nat>, dist: (nat, nat) -> real, v: nat)
    requires Square(m) && i < |m| && i !in added && v < |m| && v != i && v !in added
    ensures Join(m, i, added, dist)[i][v] == m[i][v]
    ensures v in FreeSlots(m[i], i) <==> m[i][v] == NoEdge
  {
  }

  /** The bookkeeping of one more joined vertex v: vs and added grow together. */
  lemma Grow(i: nat, vs: set<nat>, added: seq<nat>, free: set<nat>, v: nat)
    requires forall x :: x in vs <==> x == i || x in added
    requires Distinct(added) && forall t :: 0 <= t < |added| ==> added[t] in free
    requires v !in vs && v in free
    ensures forall x :: x in vs + {v} <==> x == i || x in added + [v]
    ensures Distinct(added + [v]) && forall t :: 0 <= t < |added + [v]| ==> (added + [v])[t] in free
  {
  }

  /** Fewer distinct vertices joined than free slots: some free slot is left. */
  lemma FreeLeft(free: set<nat>, added: seq<nat>) returns (w: nat)
    requires Distinct(added) && |added| < |free|
    ensures w in free && w !in added
  {
    DistinctElements(added);
    w := NotContained(free, Elems(added));
  }

  /** Some element of a is missing from the smaller set b. */
  lemma NotContained(a: set<nat>, b: set<nat>) returns (x: nat)
    requires |b| < |a|
    ensures x in a && x !in b
  {
    if a <= b {
      SubsetSize(a, b);
    }
    x :| x in a && x !in b;
  }

  // ---------------------------------------------------------------------------
  // cycleFinder: adjacency lists, dfs and the 2-cycle filter

  /** Lines 105-107: the columns of the non-'x' entries of a row, in increasing order. */
  function Neighbours(row: seq<Entry>): (ns: seq<nat>)
    ensures forall j: nat :: j in ns <==> j < |row| && row[j] != NoEdge
    ensures forall a, b :: 0 <= a < b < |ns| ==> ns[a] < ns[b]
    ensures |ns| == RowCount(row)
  {
    if row == [] then []
    else
      var n := |row| - 1;
      var init := row[..n];
      var ns := Neighbours(init);
      var last: seq<nat> := if row[n] != NoEdge then [n] else [];
      assert forall j: nat :: j in ns + last <==> j < |row| && row[j] != NoEdge by {
        forall j: nat ensures j in ns + last <==> j < |row| && row[j] != NoEdge {
          if j < n {
            assert init[j] == row[j];
          }
        }
      }
      assert forall k :: 0 <= k < |ns| ==> ns[k] < n by {
        forall k | 0 <= k < |ns| ensures ns[k] < n {
          assert ns[k] in ns;
        }
      }
      ns + last
  }

  /** The adjacency lists lines 101-107 build from a matrix. */
  function AdjacencyOf(m: Matrix): (g: seq<seq<nat>>)
    ensures |g| == |m| && forall i :: 0 <= i < |m| ==> g[i] == Neighbours(m[i])
  {
    seq(|m|, i requires 0 <= i < |m| => Neighbours(m[i]))
  }

  type Graph = seq<seq<nat>>

  /** Every listed neighbour is itself a vertex of the graph. */
  predicate Closed(graph: Graph)
  {
    forall u, k :: 0 <= u < |graph| && 0 <= k < |graph[u]| ==> graph[u][k] < |graph|
  }

  /** Each vertex of w after the first is listed among the neighbours of the one before. */
  predicate Walk(graph: Graph, w: seq<nat>)
  {
    forall k :: 0 <= k < |w| - 1 ==> w[k] < |graph| && w[k + 1] in graph[w[k]]
  }

  /** What the search keeps on its stack: the start with no path, or a simple path from start. */
  predicate Pending(graph: Graph, start: nat, end: nat, state: nat, path: seq<nat>)
  {
    if path == [] then state == start
    else state == path[|path| - 1] && Walk(graph, [start] + path) && Distinct(path) && end !in path[..|path| - 1]
  }

  /** What the search yields: a simple path from start whose only visit to end is its last vertex. */
  predicate Found(graph: Graph, start: nat, end: nat, path: seq<nat>)
  {
    |path| > 0 && path[|path| - 1] == end && Walk(graph, [start] + path) && Distinct(path) && end !in path[..|path| - 1]
  }

  /** The largest number of neighbours of a vertex. */
  function MaxOut(graph: Graph): (r: nat)
    ensures forall u :: 0 <= u < |graph| ==> |graph[u]| <= r
  {
    if graph == [] then 0
    else
      var r := MaxOut(graph[..|graph| - 1]);
      var d := |graph[|graph| - 1]|;
      assert forall u :: 0 <= u < |graph| - 1 ==> graph[u] == graph[..|graph| - 1][u];
      if d > r then d else r
  }

  function Pow(b: nat, e: nat): (p: nat)
    ensures b > 0 ==> p > 0
  {
    if e == 0 then 1 else b * Pow(b, e - 1)
  }

  /** The termination measure of the search: a stack entry of a shorter path weighs more. */
  ghost function Weight(fringe: seq<(nat, seq<nat>)>, b: nat, n: nat): nat
  {
    if fringe == [] then 0
    else
      var p := fringe[|fringe| - 1].1;
      Weight(fringe[..|fringe| - 1], b, n) + (if |p| <= n then Pow(b, n + 1 - |p|) else 0)
  }

  lemma WeightPush(fringe: seq<(nat, seq<nat>)>, b: nat, n: nat, x: (nat, seq<nat>))
    ensures Weight(fringe + [x], b, n) == Weight(fringe, b, n) + (if |x.1| <= n then Pow(b, n + 1 - |x.1|) else 0)
  {
    assert (fringe + [x])[..|fringe|] == fringe;
  }

  lemma OneMore(k: nat, p: nat)
    ensures (k + 1) * p == k * p + p
  {
  }

  lemma MulLess(d: nat, b: nat, p: nat)
    requires d < b && p > 0
    ensures d * p < b * p
  {
  }

  lemma WalkSnoc(graph: Graph, w: seq<nat>, next: nat)
    requires |w| > 0 && Walk(graph, w) && w[|w| - 1] < |graph| && next in graph[w[|w| - 1]]
    ensures Walk(graph, w + [next])
  {
    var w' := w + [next];
    forall k | 0 <= k < |w'| - 1
      ensures w'[k] < |graph| && w'[k + 1] in graph[w'[k]]
    {
      if k < |w| - 1 {
        assert w'[k] == w[k] && w'[k + 1] == w[k + 1];
      }
    }
  }

  /** A walk of a closed graph stays among its vertices. */
  lemma WalkBelow(graph: Graph, start: nat, path: seq<nat>)
    requires Closed(graph) && start < |graph| && Walk(graph, [start] + path)
    ensures Below(path, |graph|)
  {
    var w := [start] + path;
    forall t | 0 <= t < |path|
      ensures path[t] < |graph|
    {
      assert w[t] < |graph| && w[t + 1] in graph[w[t]] && w[t + 1] == path[t];
    }
  }

  lemma FoundEdge(graph: Graph, start: nat, end: nat)
    requires start < |graph| && Found(graph, start, end, [end])
    ensures end in graph[start]
  {
    var w := [start] + [end];
    assert w[0] == start && w[1] == end;
  }

  /** A stack entry: a pending search state over vertices of the graph. */
  predicate Live(graph: Graph, start: nat, end: nat, x: (nat, seq<nat>))
  {
    Pending(graph, start, end, x.0, x.1) && x.0 < |graph| && |x.1| <= |graph|
  }

  /** Every entry of the stack is live. */
  predicate Stack(graph: Graph, start: nat, end: nat, fringe: seq<(nat, seq<nat>)>)
  {
    forall t :: 0 <= t < |fringe| ==> Live(graph, start, end, fringe[t])
  }

  lemma StackSnoc(graph: Graph, start: nat, end: nat, fringe: seq<(nat, seq<nat>)>, x: (nat, seq<nat>))
    requires Stack(graph, start, end, fringe) && Live(graph, start, end, x)
    ensures Stack(graph, start, end, fringe + [x])
  {
    var f := fringe + [x];
    forall t | 0 <= t < |f|
      ensures Live(graph, start, end, f[t])
    {
      if t < |fringe| {
        assert f[t] == fringe[t];
      }
    }
  }

  /** Extending a path that has not reached end by a neighbour not on it gives a live entry. */
  lemma Extend(graph: Graph, start: nat, end: nat, state: nat, path: seq<nat>, next: nat)
    requires Closed(graph) && start < |graph| && Live(graph, start, end, (state, path))
    requires path == [] || state != end
    requires next in graph[state] && next !in path
    ensures Live(graph, start, end, (next, path + [next]))
  {
    var longer := path + [next];
    var w := [start] + path;
    assert w[|w| - 1] == state;
    WalkSnoc(graph, w, next);
    assert [start] + longer == w + [next];
    assert longer[..|longer| - 1] == path;
    assert Distinct(longer);
    WalkBelow(graph, start, longer);
    DistinctBound(longer, |graph|);
  }

  /** The entries lines 129-132 push for the neighbours ns of the popped state, in order. */
  function Pushes(path: seq<nat>, ns: seq<nat>): seq<(nat, seq<nat>)>
  {
    if ns == [] then []
    else
      var next := ns[|ns| - 1];
      Pushes(path, ns[..|ns| - 1]) + (if next in path then [] else [(next, path + [next])])
  }

  /** The pushed entries keep the stack well formed. */
  lemma {:induction false} PushesStack(graph: Graph, start: nat, end: nat, fringe: seq<(nat, seq<nat>)>, state: nat, path: seq<nat>, ns: seq<nat>)
    requires Closed(graph) && start < |graph| && Stack(graph, start, end, fringe)
    requires Live(graph, start, end, (state, path))
    requires path == [] || state != end
    requires forall t :: 0 <= t < |ns| ==> ns[t] in graph[state]
    ensures Stack(graph, start, end, fringe + Pushes(path, ns))
  {
    if ns != [] {
      var init := ns[..|ns| - 1];
      var next := ns[|ns| - 1];
      PushesStack(graph, start, end, fringe, state, path, init);
      assert fringe + Pushes(path, ns) == fringe + Pushes(path, init) + (if next in path then [] else [(next, path + [next])]);
      if next !in path {
        Extend(graph, start, end, state, path, next);
        StackSnoc(graph, start, end, fringe + Pushes(path, init), (next, path + [next]));
      }
    }
  }

  /** Each pushed entry weighs at most Pow(b, n - |path|). */
  lemma {:induction false} PushesWeight(fringe: seq<(nat, seq<nat>)>, b: nat, n: nat, path: seq<nat>, ns: seq<nat>)
    requires |path| <= n
    ensures Weight(fringe + Pushes(path, ns), b, n) <= Weight(fringe, b, n) + |ns| * Pow(b, n - |path|)
  {
    if ns != [] {
      var init := ns[..|ns| - 1];
      var next := ns[|ns| - 1];
      var p := Pow(b, n - |path|);
      PushesWeight(fringe, b, n, path, init);
      OneMore(|init|, p);
      assert |ns| == |init| + 1;
      if next !in path {
        assert fringe + Pushes(path, ns) == fringe + Pushes(path, init) + [(next, path + [next])];
        WeightPush(fringe + Pushes(path, init), b, n, (next, path + [next]));
        assert |path + [next]| <= n ==> n + 1 - |path + [next]| == n - |path|;
      } else {
        assert fringe + Pushes(path, ns) == fringe + Pushes(path, init);
      }
    } else {
      assert fringe + Pushes(path, ns) == fringe;
    }
  }

  /** From the start, every neighbour is pushed with the one-vertex path. */
  lemma {:induction false} PushesFromStart(ns: seq<nat>)
    ensures forall t :: 0 <= t < |ns| ==> (ns[t], [ns[t]]) in Pushes([], ns)
  {
    if ns != [] {
      var init := ns[..|ns| - 1];
      PushesFromStart(init);
      assert [] + [ns[|ns| - 1]] == [ns[|ns| - 1]];
      assert Pushes([], ns) == Pushes([], init) + [(ns[|ns| - 1], [ns[|ns| - 1]])];
      forall t | 0 <= t < |ns|
        ensures (ns[t], [ns[t]]) in Pushes([], ns)
      {
        if t < |init| {
          assert ns[t] == init[t];
        }
      }
    }
  }

  /** Lines 129-132: push every neighbour of state that is not yet on the path. */
  method PushNeighbours(graph: Graph, state: nat, path: seq<nat>, fringe: seq<(nat, seq<nat>)>)
    returns (pushed: seq<(nat, seq<nat>)>)
    requires state < |graph|
    ensures pushed == fringe + Pushes(path, graph[state])
  {
    pushed := fringe;
    for k := 0 to |graph[state]|
      invariant pushed == fringe + Pushes(path, graph[state][..k])
    {
      var next := graph[state][k];
      assert graph[state][..k + 1][..k] == graph[state][..k];
      if next in path {
        continue;
      }
      pushed := pushed + [(next, path + [next])];
    }
    assert graph[state][..|graph[state]|] == graph[state];
  }

  /** What one expansion of the popped state does to the stack. */
  lemma Expanded(graph: Graph, start: nat, end: nat, fringe: seq<(nat, seq<nat>)>, state: nat, path: seq<nat>)
    requires Closed(graph) && start < |graph| && Stack(graph, start, end, fringe)
    requires Live(graph, start, end, (state, path))
    requires path == [] || state != end
    ensures Stack(graph, start, end, fringe + Pushes(path, graph[state]))
    ensures Weight(fringe + Pushes(path, graph[state]), MaxOut(graph) + 1, |graph|)
      < Weight(fringe, MaxOut(graph) + 1, |graph|) + Pow(MaxOut(graph) + 1, |graph| + 1 - |path|)
    ensures path == [] ==> forall t :: 0 <= t < |graph[state]| ==> (graph[state][t], [graph[state][t]]) in Pushes(path, graph[state])
  {
    PushesStack(graph, start, end, fringe, state, path, graph[state]);
    ExpandedWeight(fringe, MaxOut(graph) + 1, |graph|, path, graph[state]);
    if path == [] {
      PushesFromStart(graph[state]);
    }
  }

  /** Pushing fewer than b extensions of path weighs less than the entry of path itself. */
  lemma ExpandedWeight(fringe: seq<(nat, seq<nat>)>, b: nat, n: nat, path: seq<nat>, ns: seq<nat>)
    requires |path| <= n && |ns| < b
    ensures Weight(fringe + Pushes(path, ns), b, n) < Weight(fringe, b, n) + Pow(b, n + 1 - |path|)
  {
    var p := Pow(b, n - |path|);
    PushesWeight(fringe, b, n, path, ns);
    MulLess(|ns|, b, p);
    assert Pow(b, n + 1 - |path|) == b * p;
  }

  /** Every path yielded so far is a simple path from start to end. */
  predicate AllFound(graph: Graph, start: nat, end: nat, paths: seq<seq<nat>>)
  {
    forall t :: 0 <= t < |paths| ==> Found(graph, start, end, paths[t])
  }

  /**
   * One pass of the loop of lines 124-132: pop the top entry, then either
   * yield its path (it has reached end) or push its extensions.
   */
  method DfsStep(graph: Graph, start: nat, end: nat, fringe: seq<(nat, seq<nat>)>, paths: seq<seq<nat>>)
    returns (fringe': seq<(nat, seq<nat>)>, paths': seq<seq<nat>>)
    requires Closed(graph) && start < |graph| && fringe != []
    requires Stack(graph, start, end, fringe) && AllFound(graph, start, end, paths)
    ensures Stack(graph, start, end, fringe') && AllFound(graph, start, end, paths')
    ensures Weight(fringe', MaxOut(graph) + 1, |graph|) < Weight(fringe, MaxOut(graph) + 1, |graph|)
    ensures forall x :: x in fringe && x != fringe[|fringe| - 1] ==> x in fringe'
    ensures paths' == paths || paths' == paths + [fringe[|fringe| - 1].1]
    ensures fringe[|fringe| - 1].1 != [] && fringe[|fringe| - 1].0 == end ==> paths' == paths + [fringe[|fringe| - 1].1]
    ensures fringe == [(start, [])] ==> forall t :: 0 <= t < |graph[start]| ==> (graph[start][t], [graph[start][t]]) in fringe'
  {
    var state := fringe[|fringe| - 1].0;
    var path := fringe[|fringe| - 1].1;
    var rest := fringe[..|fringe| - 1];
    assert fringe == rest + [(state, path)];
    WeightPush(rest, MaxOut(graph) + 1, |graph|, (state, path));
    if path != [] && state == end {
      return rest, paths + [path];
    }
    fringe' := PushNeighbours(graph, state, path, rest);
    paths' := paths;
    Expanded(graph, start, end, rest, state, path);
  }

  /**
   * Lines 122-132: the paths dfs(graph, start, end) yields, in order.  The
   * search keeps a stack of (state, path) entries and pops the most recent.
   */
  method Dfs(graph: Graph, start: nat, end: nat) returns (paths: seq<seq<nat>>)
    requires Closed(graph) && start < |graph|
    ensures forall t :: 0 <= t < |paths| ==> Found(graph, start, end, paths[t])
    ensures [end] in paths ==> end in graph[start]
    ensures end in graph[start] ==> [end] in paths
  {
    var fringe: seq<(nat, seq<nat>)> := [(start, [])];
    paths := [];
    ghost var begun := false;
    while fringe != []
      invariant Stack(graph, start, end, fringe) && AllFound(graph, start, end, paths)
      invariant !begun ==> fringe == [(start, [])] && paths == []
      invariant begun && end in graph[start] ==> (end, [end]) in fringe || [end] in paths
      decreases Weight(fringe, MaxOut(graph) + 1, |graph|)
    {
      fringe, paths := DfsStep(graph, start, end, fringe, paths);
      begun := true;
    }
    assert begun;
    if [end] in paths {
      ghost var t :| 0 <= t < |paths| && paths[t] == [end];
      FoundEdge(graph, start, end);
    }
  }

  /** The lists of a square matrix name only its vertices. */
  lemma AdjacencyClosed(m: Matrix)
    requires Square(m)
    ensures Closed(AdjacencyOf(m))
  {
    var g := AdjacencyOf(m);
    forall u, k | 0 <= u < |g| && 0 <= k < |g[u]|
      ensures g[u][k] < |g|
    {
      assert g[u][k] in Neighbours(m[u]);
    }
  }

  /** A symmetric matrix gives undirected lists: v is listed for u exactly when u is listed for v. */
  lemma AdjacencySymmetric(m: Matrix, u: nat, v: nat)
    requires Symmetric(m) && u < |m| && v < |m|
    ensures v in AdjacencyOf(m)[u] <==> u in AdjacencyOf(m)[v]
  {
    assert m[u][v] == m[v][u];
  }

  /** A matrix without self loops lists no vertex as its own neighbour. */
  lemma AdjacencyNoSelfLoops(m: Matrix, u: nat)
    requires NoSelfLoops(m) && u < |m|
    ensures u !in AdjacencyOf(m)[u]
  {
    assert m[u][u] == NoEdge;
  }

  /** Python's IndexError, raised at cy[2] on a cycle of two vertices (line 110). */
  datatype CycleError = IndexError

  /** Some cycle has fewer than three vertices. */
  predicate HasShort(cycles: seq<seq<nat>>)
  {
    exists t :: 0 <= t < |cycles| && |cycles[t]| < 3
  }

  /** Line 110: keep the cycles whose first and third vertices differ, in order. */
  function KeepLong(cycles: seq<seq<nat>>): (r: Result<seq<seq<nat>>, CycleError>)
    ensures r.Failure? <==> HasShort(cycles)
    ensures r.Success? ==> |r.value| <= |cycles|
    ensures r.Success? ==> forall cy :: cy in r.value <==> cy in cycles && |cy| >= 3 && cy[0] != cy[2]
  {
    if cycles == [] then Success([])
    else if |cycles[0]| < 3 then Failure(IndexError)
    else
      assert forall t :: 0 <= t < |cycles| - 1 ==> cycles[1..][t] == cycles[t + 1];
      assert cycles == [cycles[0]] + cycles[1..];
      match KeepLong(cycles[1..])
      case Failure(e) => Failure(e)
      case Success(rest) => Success(if cycles[0][0] != cycles[0][2] then [cycles[0]] + rest else rest)
  }

  /** Line 109: the cycles through node, each path prefixed by node. */
  function Rooted(node: nat, paths: seq<seq<nat>>): (cs: seq<seq<nat>>)
    ensures |cs| == |paths| && forall t :: 0 <= t < |paths| ==> cs[t] == [node] + paths[t]
  {
    seq(|paths|, t requires 0 <= t < |paths| => [node] + paths[t])
  }

  /** What line 109 collects: a vertex followed by a path dfs yields from it back to it. */
  predicate Candidate(graph: Graph, cy: seq<nat>)
  {
    |cy| >= 2 && cy[0] < |graph| && Found(graph, cy[0], cy[0], cy[1..])
  }

  /** A cycle cycleFinder reports: at least three distinct vertices, back to the first, along edges. */
  predicate Cycle(graph: Graph, cy: seq<nat>)
  {
    |cy| >= 4 && cy[0] == cy[|cy| - 1] && cy[0] != cy[2] && Walk(graph, cy) && Distinct(cy[1..])
  }

  predicate AllCycles(graph: Graph, cycles: seq<seq<nat>>)
  {
    forall cy :: cy in cycles ==> Cycle(graph, cy)
  }

  /** Some vertex lists itself as a neighbour. */
  predicate SelfLoop(graph: Graph)
  {
    exists u :: 0 <= u < |graph| && u in graph[u]
  }

  lemma RootedCandidates(graph: Graph, node: nat, paths: seq<seq<nat>>)
    requires node < |graph| && AllFound(graph, node, node, paths)
    ensures forall cy :: cy in Rooted(node, paths) ==> Candidate(graph, cy)
    ensures HasShort(Rooted(node, paths)) <==> [node] in paths
  {
    var cs := Rooted(node, paths);
    forall cy | cy in cs
      ensures Candidate(graph, cy)
    {
      var t :| 0 <= t < |cs| && cs[t] == cy;
      assert cy[1..] == paths[t];
    }
    if HasShort(cs) {
      var t :| 0 <= t < |cs| && |cs[t]| < 3;
      assert Found(graph, node, node, paths[t]);
      assert paths[t] == [node];
    }
    if [node] in paths {
      var t :| 0 <= t < |paths| && paths[t] == [node];
      assert |cs[t]| == 2;
    }
  }

  lemma HasShortAppend(a: seq<seq<nat>>, b: seq<seq<nat>>)
    ensures HasShort(a + b) <==> HasShort(a) || HasShort(b)
  {
    if HasShort(a + b) {
      var t :| 0 <= t < |a + b| && |(a + b)[t]| < 3;
      if t >= |a| {
        assert (a + b)[t] == b[t - |a|];
      }
    }
    if HasShort(a) {
      var t :| 0 <= t < |a| && |a[t]| < 3;
      assert (a + b)[t] == a[t];
    }
    if HasShort(b) {
      var t :| 0 <= t < |b| && |b[t]| < 3;
      assert (a + b)[|a| + t] == b[t];
    }
  }

  /** The candidates line 110 keeps are the cycles of at least three distinct vertices. */
  lemma KeptIsCycle(graph: Graph, cy: seq<nat>)
    requires Candidate(graph, cy) && |cy| >= 3 && cy[0] != cy[2]
    ensures Cycle(graph, cy)
  {
    assert cy == [cy[0]] + cy[1..];
  }

  // ---------------------------------------------------------------------------
  // writeInput: the layout of the instance file

  /** str() of one adjacency entry: 'x', or the weight as Python prints the float. */
  function EntryWord(e: Entry, fmt: real -> string): string
  {
    match e
    case NoEdge => "x"
    case Edge(w) => fmt(w)
  }

  function EntryWords(row: seq<Entry>, fmt: real -> string): (ws: seq<string>)
    ensures |ws| == |row| && forall j :: 0 <= j < |row| ==> ws[j] == EntryWord(row[j], fmt)
  {
    seq(|row|, j requires 0 <= j < |row| => EntryWord(row[j], fmt))
  }

  /** str() of each index. */
  function NatWords(ns: seq<nat>): (ws: seq<string>)
    ensures |ws| == |ns| && forall t :: 0 <= t < |ns| ==> ws[t] == NatToString(ns[t])
  {
    seq(|ns|, t requires 0 <= t < |ns| => NatToString(ns[t]))
  }

  /** The indices 0 .. n-1 in order. */
  function Upto(n: nat): (r: seq<nat>)
    ensures |r| == n && forall i :: 0 <= i < n ==> r[i] == i
  {
    seq(n, i requires 0 <= i < n => i)
  }

  /** Lines 149-152: one line per row, each entry followed by a space. */
  function RowLines(m: Matrix, fmt: real -> string): (ls: seq<string>)
    ensures |ls| == |m| && forall i :: 0 <= i < |m| ==> ls[i] == Spaced(EntryWords(m[i], fmt))
  {
    seq(|m|, i requires 0 <= i < |m| => Spaced(EntryWords(m[i], fmt)))
  }

  /** The lines lines 139-152 write: the counts, the locations, the homes, the start, the matrix. */
  function InputLines(n: nat, numHomes: nat, homes: seq<nat>, start: nat, m: Matrix, fmt: real -> string): seq<string>
  {
    [NatToString(n), NatToString(numHomes), Spaced(NatWords(Upto(n))), Spaced(NatWords(homes)), NatToString(start)] +
    RowLines(m, fmt)
  }

  /** The text of the instance file. */
  function InputText(n: nat, numHomes: nat, homes: seq<nat>, start: nat, m: Matrix, fmt: real -> string): string
  {
    Unlines(InputLines(n, numHomes, homes, start, m, fmt))
  }

  /** Python prints a float as one whitespace-free word, never as 'x'. */
  ghost predicate Formats(fmt: real -> string)
  {
    forall w: real :: IsWord(fmt(w)) && fmt(w) != "x"
  }

  lemma EntryWordsAreWords(row: seq<Entry>, fmt: real -> string)
    requires Formats(fmt)
    ensures AllWords(EntryWords(row, fmt))
  {
    forall j | 0 <= j < |row|
      ensures IsWord(EntryWords(row, fmt)[j])
    {
      if row[j] == NoEdge {
        assert !IsSpace('x');
      }
    }
  }

  lemma NatWordsAreWords(ns: seq<nat>)
    ensures AllWords(NatWords(ns))
  {
    forall t | 0 <= t < |ns|
      ensures IsWord(NatWords(ns)[t])
    {
      NatToStringIsWord(ns[t]);
    }
  }

  /** Writing the next line of `ls` extends the text written so far. */
  lemma AppendLine(ls: seq<string>, k: nat, text: string, line: string)
    requires k < |ls| && text == Unlines(ls[..k]) && line == ls[k]
    ensures text + line + "\n" == Unlines(ls[..k + 1])
  {
    UnlinesSnoc(ls[..k], line);
    assert ls[..k + 1] == ls[..k] + [line];
  }

  /** No line of the instance file holds a newline. */
  lemma InputLinesSingle(n: nat, numHomes: nat, homes: seq<nat>, start: nat, m: Matrix, fmt: real -> string)
    requires Formats(fmt)
    ensures var ls := InputLines(n, numHomes, homes, start, m, fmt);
      forall t :: 0 <= t < |ls| ==> '\n' !in ls[t]
  {
    var ls := InputLines(n, numHomes, homes, start, m, fmt);
    NatToStringIsWord(n);
    NatToStringIsWord(numHomes);
    NatToStringIsWord(start);
    NatWordsAreWords(Upto(n));
    NatWordsAreWords(homes);
    WordsOfSpaced(NatWords(Upto(n)));
    WordsOfSpaced(NatWords(homes));
    forall t | 5 <= t < |ls|
      ensures '\n' !in ls[t]
    {
      EntryWordsAreWords(m[t - 5], fmt);
      WordsOfSpaced(EntryWords(m[t - 5], fmt));
    }
  }

  /** Reading the instance file back line by line gives the lines written. */
  lemma InputRoundTrip(n: nat, numHomes: nat, homes: seq<nat>, start: nat, m: Matrix, fmt: real -> string)
    requires Formats(fmt)
    ensures Lines(InputText(n, numHomes, homes, start, m, fmt)) == InputLines(n, numHomes, homes, start, m, fmt)
  {
    InputLinesSingle(n, numHomes, homes, start, m, fmt);
    LinesOfUnlines(InputLines(n, numHomes, homes, start, m, fmt));
  }

  /** A line of indices reads back as those indices. */
  lemma IndicesReadBack(ns: seq<nat>)
    ensures Words(Spaced(NatWords(ns))) == NatWords(ns)
  {
    NatWordsAreWords(ns);
    WordsOfSpaced(NatWords(ns));
  }

  /** One matrix line reads back as its entries, 'x' exactly where there is no edge. */
  lemma RowLayout(row: seq<Entry>, fmt: real -> string)
    requires Formats(fmt)
    ensures Words(Spaced(EntryWords(row, fmt))) == EntryWords(row, fmt)
    ensures forall j :: 0 <= j < |row| ==> (Words(Spaced(EntryWords(row, fmt)))[j] == "x" <==> row[j] == NoEdge)
  {
    EntryWordsAreWords(row, fmt);
    WordsOfSpaced(EntryWords(row, fmt));
  }

  /**
   * The lines of the instance file: the location count, the home count, the
   * indices 0 .. n-1, the homes in order, the start, then one line per
   * location holding its n entries, 'x' exactly where there is no edge.
   */
  lemma InputLayout(n: nat, numHomes: nat, homes: seq<nat>, start: nat, m: Matrix, fmt: real -> string)
    requires Formats(fmt) && |m| == n
    ensures var ls := InputLines(n, numHomes, homes, start, m, fmt);
      |ls| == 5 + n &&
      ls[0] == NatToString(n) && ls[1] == NatToString(numHomes) && ls[4] == NatToString(start) &&
      Words(ls[2]) == NatWords(Upto(n)) && Words(ls[3]) == NatWords(homes) &&
      forall i :: 0 <= i < n ==>
        (Words(ls[5 + i]) == EntryWords(m[i], fmt) &&
         forall j :: 0 <= j < |m[i]| ==> (Words(ls[5 + i])[j] == "x" <==> m[i][j] == NoEdge))
  {
    HeaderLayout(n, numHomes, homes, start, m, fmt);
    RowsLayout(n, numHomes, homes, start, m, fmt);
  }

  /** The first five lines of the instance file. */
  lemma HeaderLayout(n: nat, numHomes: nat, homes: seq<nat>, start: nat, m: Matrix, fmt: real -> string)
    requires |m| == n
    ensures var ls := InputLines(n, numHomes, homes, start, m, fmt);
      |ls| == 5 + n &&
      ls[0] == NatToString(n) && ls[1] == NatToString(numHomes) && ls[4] == NatToString(start) &&
      Words(ls[2]) == NatWords(Upto(n)) && Words(ls[3]) == NatWords(homes)
  {
    var ls := InputLines(n, numHomes, homes, start, m, fmt);
    assert ls[2] == Spaced(NatWords(Upto(n))) && ls[3] == Spaced(NatWords(homes));
    IndicesReadBack(Upto(n));
    IndicesReadBack(homes);
  }

  /** The matrix lines of the instance file. */
  lemma RowsLayout(n: nat, numHomes: nat, homes: seq<nat>, start: nat, m: Matrix, fmt: real -> string)
    requires Formats(fmt) && |m| == n
    ensures var ls := InputLines(n, numHomes, homes, start, m, fmt);
      forall i :: 0 <= i < n ==>
        (Words(ls[5 + i]) == EntryWords(m[i], fmt) &&
         forall j :: 0 <= j < |m[i]| ==> (Words(ls[5 + i])[j] == "x" <==> m[i][j] == NoEdge))
  {
    var ls := InputLines(n, numHomes, homes, start, m, fmt);
    var rows := RowLines(m, fmt);
    forall i | 0 <= i < n
      ensures Words(ls[5 + i]) == EntryWords(m[i], fmt)
      ensures forall j :: 0 <= j < |m[i]| ==> (Words(ls[5 + i])[j] == "x" <==> m[i][j] == NoEdge)
    {
      assert ls[5 + i] == rows[i];
      RowLayout(m[i], fmt);
    }
  }

  /** How genGraph ends: a graph, or the error or endless loop its random draws run into. */
  datatype GenOutcome =
    | Generated
    | RandIntError          // np.random.randint over an empty range raises ValueError
    | HomesNeverEnd         // fewer candidate locations than homes: the selection loop spins forever
    | EdgesNeverEnd(i: nat) // vertex i has fewer free slots than its degree: the insertion loop spins forever

  // ---------------------------------------------------------------------------
  // The generator

  class GraphGenerator {
    var vertices: seq<Vertex>
    var numLocations: nat
    var numHomes: nat
    var startVertex: nat
    var homeList: set<nat>
    /** The position of each vertex object the generator owns. */
    ghost var Index: map<Vertex, nat>
    /** The vertex objects the generator owns: what its methods may change. */
    ghost var Repr: set<object>

    /** GraphGenerator.__init__. */
    constructor (numLocations: nat, numHomes: nat)
      ensures this.numLocations == numLocations && this.numHomes == numHomes
      ensures vertices == [] && startVertex == 0 && homeList == {} && Index == map[] && Repr == {}
    {
      vertices := [];
      Index := map[];
      Repr := {};
      this.numLocations := numLocations;
      this.numHomes := numHomes;
      startVertex := 0;
      homeList := {};
    }

    /** One vertex per location, each with a row of n entries. */
    ghost predicate Shaped()
      reads this`vertices, this`numLocations, vertices
    {
      |vertices| == numLocations &&
      forall t :: 0 <= t < |vertices| ==> |vertices[t].adjList| == numLocations
    }

    /** Shaped, and the vertices are separate objects. */
    ghost predicate Valid()
      reads this`vertices, this`numLocations, this`Index, this`Repr, vertices
    {
      Shaped() && this !in Repr &&
      forall t :: 0 <= t < |vertices| ==> vertices[t] in Repr && vertices[t] in Index && Index[vertices[t]] == t
    }

    /** The adjacency matrix the vertices hold. */
    function Adj(): (m: Matrix)
      reads this`vertices, vertices
      ensures |m| == |vertices| && forall t :: 0 <= t < |vertices| ==> m[t] == vertices[t].adjList
    {
      var vs := vertices;
      seq(|vs|, t reads vs requires 0 <= t < |vs| => vs[t].adjList)
    }

    /** The degree field of every vertex. */
    function Degrees(): (ds: seq<int>)
      reads this`vertices, vertices
      ensures |ds| == |vertices| && forall t :: 0 <= t < |vertices| ==> ds[t] == vertices[t].degree
    {
      var vs := vertices;
      seq(|vs|, t reads vs requires 0 <= t < |vs| => vs[t].degree)
    }

    /** The coordinates and node type of every vertex. */
    function Points(): (ps: seq<(real, real, int)>)
      reads this`vertices, vertices
      ensures |ps| == |vertices|
      ensures forall t :: 0 <= t < |vertices| ==> ps[t] == (vertices[t].x, vertices[t].y, vertices[t].nodeType)
    {
      var vs := vertices;
      seq(|vs|, t reads vs requires 0 <= t < |vs| => (vs[t].x, vs[t].y, vs[t].nodeType))
    }

    /** Lines 38-40: one fresh vertex per location, at the drawn coordinates. */
    method CreateVertices(coords: seq<(real, real)>)
      modifies this`vertices, this`Index, this`Repr
      requires vertices == [] && Index == map[] && Repr == {} && |coords| == numLocations
      ensures Valid() && Square(Adj()) && fresh(Repr)
      ensures forall t :: 0 <= t < |vertices| ==>
        vertices[t].x == coords[t].0 && vertices[t].y == coords[t].1 && vertices[t].nodeType == 0 &&
        vertices[t].adjList == NoEdges(numLocations) && vertices[t].degree == 0
      ensures Placing(coords)
    {
      for i := 0 to numLocations
        invariant |vertices| == i && fresh(Repr) && this !in Repr
        invariant forall t :: 0 <= t < i ==> vertices[t] in Repr && vertices[t] in Index && Index[vertices[t]] == t
        invariant forall t :: 0 <= t < i ==>
          vertices[t].x == coords[t].0 && vertices[t].y == coords[t].1 && vertices[t].nodeType == 0 &&
          vertices[t].adjList == NoEdges(numLocations) && vertices[t].degree == 0
      {
        var v := new Vertex(coords[i].0, coords[i].1, 0, numLocations);
        vertices := vertices + [v];
        Index := Index[v := i];
        Repr := Repr + {v};
      }
      CountEntriesEmpty(Adj());
    }

    /** Lines 62-63: the edge i -- v gets weight w in both rows. */
    method AddEdge(i: nat, v: nat, w: real)
      modifies vertices[i], vertices[v]
      requires Valid() && i < numLocations && v < numLocations && i != v
      ensures Valid()
      ensures Adj() == old(Adj())[i := old(Adj())[i][v := Edge(w)]][v := old(Adj())[v][i := Edge(w)]]
      ensures Degrees() == old(Degrees()) && Points() == old(Points())
    {
      vertices[i].adjList := vertices[i].adjList[v := Edge(w)];
      vertices[v].adjList := vertices[v].adjList[i := Edge(w)];
    }
  
    /**
     * np.random.randint(0, high) for the start vertex (line 42 passes
     * numLocations - 1): numpy raises ValueError unless 0 < high.
     */
    method DrawStart(high: int) returns (ok: bool)
      modifies this`startVertex
      ensures ok <==> high > 0
      ensures ok ==> startVertex < high
      ensures !ok ==> startVertex == old(startVertex)
    {
      if high <= 0 {
        return false;
      }
      var s: nat :| s < high;
      startVertex := s;
      ok := true;
    }

    /**
     * Lines 44-49, drawing with np.random.randint(0, high) (line 46 passes
     * numLocations - 1): draws already in homeList are skipped, so the loop
     * adds numHomes new distinct homes below high.  It ends only when that
     * many candidates are left, which the precondition states.
     */
    method DrawHomes(high: nat)
      modifies this`homeList
      requires numHomes <= |Range(high) - homeList|
      ensures old(homeList) <= homeList && |homeList - old(homeList)| == numHomes
      ensures forall v :: v in homeList - old(homeList) ==> v < high
    {
      var currHomes := 0;
      while currHomes < numHomes
        invariant old(homeList) <= homeList && homeList - old(homeList) <= Range(high)
        invariant currHomes == |homeList - old(homeList)| <= numHomes
        decreases numHomes - currHomes
      {
        var added := homeList - old(homeList);
        assert Range(high) - old(homeList) == (Range(high) - homeList) + added;
        assert |Range(high) - homeList| > 0;
        var w := NotContained(Range(high) - homeList, {});
        var v: nat :| v < high && v !in homeList;
        assert homeList + {v} - old(homeList) == added + {v};
        homeList := homeList + {v};
        currHomes := currHomes + 1;
      }
    }

    /**
     * One accepted draw of lines 57-64: a vertex v other than i, not yet
     * joined, whose entry in row i is still 'x', gets its edge to i.
     */
    method JoinNext(i: nat, vs: set<nat>, dist: (nat, nat) -> real, ghost m0: Matrix, ghost added: seq<nat>)
      returns (v: nat)
      modifies Repr
      requires Valid() && i < numLocations && Square(m0) && |m0| == numLocations
      requires forall x :: x in vs <==> x == i || x in added
      requires Distinct(added) && forall t :: 0 <= t < |added| ==> added[t] in FreeSlots(m0[i], i)
      requires |added| < |FreeSlots(m0[i], i)|
      requires Adj() == Join(m0, i, added, dist)
      ensures Valid()
      ensures v !in vs && v in FreeSlots(m0[i], i)
      ensures Adj() == Join(m0, i, added + [v], dist)
      ensures Degrees() == old(Degrees()) && Points() == old(Points())
    {
      ghost var w := FreeLeft(FreeSlots(m0[i], i), added);
      OpenSlot(m0, i, added, dist, w);
      assert vertices[i].adjList == Join(m0, i, added, dist)[i];
      v :| v < numLocations && v !in vs && vertices[i].adjList[v] == NoEdge;
      OpenSlot(m0, i, added, dist, v);
      JoinStep(m0, i, added, v, dist);
      AddEdge(i, v, dist(v, i));
    }

    /**
     * Lines 52-64 for vertex i: record the drawn degree, then join i to
     * `degree` new neighbours, each drawn among the other vertices whose
     * entry in row i is still 'x'.  The draws the source rejects (i itself,
     * a vertex already joined, an existing edge) change nothing and are not
     * modelled; the loop ends only when row i has `degree` free entries.
     * JoinKeeps and JoinCount state what the new matrix keeps.
     */
    method InsertEdges(i: nat, degree: int, dist: (nat, nat) -> real) returns (ghost added: seq<nat>)
      modifies Repr
      requires Valid() && i < numLocations
      requires degree <= |FreeSlots(Adj()[i], i)|
      ensures Valid()
      ensures Distinct(added) && |added| == if degree > 0 then degree else 0
      ensures forall t :: 0 <= t < |added| ==> added[t] in FreeSlots(old(Adj())[i], i)
      ensures Adj() == Join(old(Adj()), i, added, dist)
      ensures Degrees() == old(Degrees())[i := degree] && Points() == old(Points())
    {
      ghost var m0 := Adj();
      ghost var d0 := Degrees();
      ghost var p0 := Points();
      vertices[i].degree := degree;
      assert Adj() == m0;
      assert Degrees() == d0[i := degree];
      assert Points() == p0;
      added := JoinAll(i, degree, dist, m0, d0[i := degree], p0);
    }

    /** The loop of lines 56-64 for vertex i, from row i as it was before it. */
    method JoinAll(i: nat, degree: int, dist: (nat, nat) -> real, ghost m0: Matrix, ghost d0: seq<int>, ghost p0: seq<(real, real, int)>)
      returns (ghost added: seq<nat>)
      modifies Repr
      requires Valid() && i < numLocations && Adj() == m0 && Degrees() == d0 && Points() == p0
      requires degree <= |FreeSlots(m0[i], i)|
      ensures Valid()
      ensures Distinct(added) && |added| == if degree > 0 then degree else 0
      ensures forall t :: 0 <= t < |added| ==> added[t] in FreeSlots(m0[i], i)
      ensures Adj() == Join(m0, i, added, dist)
      ensures Degrees() == d0 && Points() == p0
    {
      var vs: set<nat> := {i};
      var numNeighbors := 0;
      added := [];
      JoinNothing(m0, i, dist);
      ghost var free := FreeSlots(m0[i], i);
      while numNeighbors < degree
        invariant Valid()
        invariant forall x :: x in vs <==> x == i || x in added
        invariant Distinct(added) && numNeighbors == |added|
        invariant forall t :: 0 <= t < |added| ==> added[t] in free
        invariant numNeighbors <= if degree > 0 then degree else 0
        invariant Adj() == Join(m0, i, added, dist)
        invariant Degrees() == d0 && Points() == p0
        decreases degree - numNeighbors
      {
        var v := JoinNext(i, vs, dist, m0, added);
        Grow(i, vs, added, free, v);
        vs := vs + {v};
        added := added + [v];
        numNeighbors := numNeighbors + 1;
      }
    }

    /**
     * The state after the loop of lines 51-64 has handled the first i
     * vertices: their degrees are set, their edges inserted (two entries per
     * edge), symmetry kept, and no vertex moved.
     */
    ghost predicate Inserted(degrees: seq<int>, i: nat, m0: Matrix, d0: seq<int>, p0: seq<(real, real, int)>)
      reads this`vertices, this`numLocations, this`Index, this`Repr, vertices
    {
      |degrees| == numLocations == |d0| && i <= numLocations &&
      Valid() && Symmetric(Adj()) && Points() == p0 &&
      (NoSelfLoops(m0) ==> NoSelfLoops(Adj())) &&
      CountEntries(Adj()) == CountEntries(m0) + 2 * SumPositive(degrees[..i]) &&
      Degrees() == degrees[..i] + d0[i..]
    }

    /**
     * One pass of the loop of lines 51-64 for vertex i, stated as the step
     * from the first i vertices to the first i + 1.  It fails, changing
     * nothing, when vertex i has fewer free slots than its degree: there the
     * original's while loop never ends.
     */
    method InsertStep(degrees: seq<int>, i: nat, dist: (nat, nat) -> real, ghost m0: Matrix, ghost d0: seq<int>, ghost p0: seq<(real, real, int)>)
      returns (ok: bool)
      modifies Repr
      requires Inserted(degrees, i, m0, d0, p0) && i < numLocations
      ensures ok ==> Inserted(degrees, i + 1, m0, d0, p0)
      ensures !ok ==> Inserted(degrees, i, m0, d0, p0) && degrees[i] > |FreeSlots(Adj()[i], i)|
    {
      if degrees[i] > |FreeSlots(Adj()[i], i)| {
        return false;
      }
      ghost var m := Adj();
      ghost var d := Degrees();
      ghost var added := InsertEdges(i, degrees[i], dist);
      JoinKeeps(m, i, added, dist);
      JoinCount(m, i, added, dist);
      SumPositiveSnoc(degrees, i);
      PrefixStep(degrees, d, d0, i);
      ok := true;
    }

    /**
     * Lines 51-64: vertex by vertex, set the drawn degree and insert that many
     * edges.  The result is the vertex the loop stops at: numLocations when
     * every vertex is done, otherwise the first vertex with fewer free slots
     * than its degree.
     */
    method InsertAllEdges(degrees: seq<int>, dist: (nat, nat) -> real) returns (reached: nat)
      modifies Repr
      requires Valid() && Symmetric(Adj()) && |degrees| == numLocations
      ensures reached <= numLocations && Inserted(degrees, reached, old(Adj()), old(Degrees()), old(Points()))
      ensures reached < numLocations ==> degrees[reached] > |FreeSlots(Adj()[reached], reached)|
    {
      assert degrees[..0] + Degrees()[0..] == Degrees();
      reached := InsertLoop(degrees, dist, Adj(), Degrees(), Points());
    }

    /** The loop of lines 51-64, from a state where no vertex is handled yet. */
    method InsertLoop(degrees: seq<int>, dist: (nat, nat) -> real, ghost m0: Matrix, ghost d0: seq<int>, ghost p0: seq<(real, real, int)>)
      returns (reached: nat)
      modifies Repr
      requires Inserted(degrees, 0, m0, d0, p0)
      ensures reached <= numLocations && Inserted(degrees, reached, m0, d0, p0)
      ensures reached < numLocations ==> degrees[reached] > |FreeSlots(Adj()[reached], reached)|
    {
      for i := 0 to numLocations
        invariant Inserted(degrees, i, m0, d0, p0)
      {
        var ok := InsertStep(degrees, i, dist, m0, d0, p0);
        if !ok {
          return i;
        }
      }
      return numLocations;
    }

    /** The state lines 38-40 leave: every location placed, no edge yet. */
    ghost predicate Placing(coords: seq<(real, real)>)
      reads this`vertices, this`numLocations, this`Index, this`Repr, vertices
    {
      Valid() && Symmetric(Adj()) && NoSelfLoops(Adj()) && CountEntries(Adj()) == 0 && Points() == Placed(coords)
    }

    /**
     * Lines 42-49 of genGraph, with the start and every home drawn by
     * np.random.randint(0, high), which raises ValueError when high <= 0 and
     * never returns high.  The home loop never ends when there are more
     * homes than candidates.
     */
    method DrawStartAndHomes(high: int) returns (outcome: GenOutcome)
      modifies this`startVertex, this`homeList
      requires homeList == {}
      ensures !outcome.EdgesNeverEnd?
      ensures outcome == RandIntError <==> high <= 0
      ensures outcome == HomesNeverEnd <==> 0 < high < numHomes
      ensures outcome == Generated ==>
        |homeList| == numHomes && (forall v :: v in homeList ==> v < high) && startVertex < high
    {
      var ok := DrawStart(high);
      if !ok {
        return RandIntError;
      }
      if numHomes > high {
        return HomesNeverEnd;
      }
      assert Range(high) - homeList == Range(high);
      DrawHomes(high);
      assert homeList - {} == homeList;
      outcome := Generated;
    }

    /**
     * Lines 42-49 as written: np.random.randint(0, numLocations - 1) excludes
     * the last location, so it is never the start or a home, one location is
     * too few to draw from, and the home loop never ends when every location
     * is to be a home.
     */
    method DrawStartAndHomesAsWritten() returns (outcome: GenOutcome)
      modifies this`startVertex, this`homeList
      requires homeList == {}
      ensures !outcome.EdgesNeverEnd?
      ensures outcome == RandIntError <==> numLocations <= 1
      ensures outcome == HomesNeverEnd <==> 1 < numLocations <= numHomes
      ensures outcome == Generated ==>
        |homeList| == numHomes && (forall v :: v in homeList ==> v < numLocations - 1) && startVertex < numLocations - 1
      ensures outcome == Generated ==> startVertex != numLocations - 1 && numLocations - 1 !in homeList
    {
      outcome := DrawStartAndHomes(numLocations as int - 1);
    }

    /**
     * Lines 38-49 of genGraph: the vertices are created, then the start and
     * the homes drawn as written, below numLocations - 1.
     */
    method PlaceAndDraw(coords: seq<(real, real)>) returns (outcome: GenOutcome)
      modifies this`vertices, this`Index, this`Repr, this`startVertex, this`homeList
      requires vertices == [] && homeList == {} && Index == map[] && Repr == {} && |coords| == numLocations
      ensures !outcome.EdgesNeverEnd?
      ensures outcome == RandIntError <==> numLocations <= 1
      ensures outcome == HomesNeverEnd <==> 1 < numLocations <= numHomes
      ensures Placing(coords) && fresh(Repr)
      ensures outcome == Generated ==>
        |homeList| == numHomes && (forall v :: v in homeList ==> v < numLocations - 1) && startVertex < numLocations - 1
    {
      CreateVertices(coords);
      outcome := DrawStartAndHomesAsWritten();
    }

    /**
     * genGraph (lines 36-64): the vertices are created, the start and the
     * homes drawn as written (never the last location), then the edges
     * inserted.  The connectivity check and the regeneration of lines 66-70
     * are not modelled.
     */
    method GenGraph(coords: seq<(real, real)>, degrees: seq<int>, dist: (nat, nat) -> real) returns (outcome: GenOutcome)
      modifies this`vertices, this`Index, this`Repr, this`startVertex, this`homeList
      requires vertices == [] && homeList == {} && Index == map[] && Repr == {}
      requires |coords| == numLocations && |degrees| == numLocations
      ensures outcome == RandIntError <==> numLocations <= 1
      ensures outcome == HomesNeverEnd <==> 1 < numLocations <= numHomes
      ensures outcome.EdgesNeverEnd? ==>
        Valid() && outcome.i < numLocations && degrees[outcome.i] > |FreeSlots(Adj()[outcome.i], outcome.i)|
      ensures outcome == Generated ==>
        Valid() && Symmetric(Adj()) && NoSelfLoops(Adj()) &&
        CountEntries(Adj()) == 2 * SumPositive(degrees) && Degrees() == degrees &&
        |homeList| == numHomes && (forall v :: v in homeList ==> v < numLocations - 1) && startVertex < numLocations - 1 &&
        Points() == Placed(coords)
    {
      outcome := PlaceAndDraw(coords);
      if outcome != Generated {
        return;
      }
      ghost var m, d, p := Adj(), Degrees(), Points();
      ghost var start, homes := startVertex, homeList;
      ghost var drawn := |homes| == numHomes && (forall v :: v in homes ==> v < numLocations - 1) && start < numLocations - 1;
      assert drawn;
      assert Placing(coords);
      var reached := InsertAllEdges(degrees, dist);
      assert startVertex == start && homeList == homes;
      if reached < numLocations {
        return EdgesNeverEnd(reached);
      }
      AllInserted(coords, degrees, m, d, p);
    }

    /** Once the loop of lines 51-64 has handled every vertex of a freshly placed graph. */
    lemma AllInserted(coords: seq<(real, real)>, degrees: seq<int>, m: Matrix, d: seq<int>, p: seq<(real, real, int)>)
      requires Inserted(degrees, numLocations, m, d, p)
      requires NoSelfLoops(m) && CountEntries(m) == 0 && p == Placed(coords)
      ensures Valid() && Symmetric(Adj()) && NoSelfLoops(Adj()) && Points() == Placed(coords)
      ensures CountEntries(Adj()) == 2 * SumPositive(degrees) && Degrees() == degrees
    {
      assert degrees[..numLocations] == degrees;
    }

    /** Lines 101-107: for each vertex, the columns of its non-'x' entries, in increasing order. */
    method AdjacencyLists() returns (graph: Graph)
      requires Shaped()
      ensures graph == AdjacencyOf(Adj()) && Closed(graph)
    {
      ghost var m := Adj();
      graph := [];
      for i := 0 to numLocations
        invariant graph == AdjacencyOf(m)[..i]
      {
        var ns := NeighbourList(vertices[i].adjList);
        assert AdjacencyOf(m)[..i + 1] == AdjacencyOf(m)[..i] + [ns];
        graph := graph + [ns];
      }
      assert AdjacencyOf(m)[..numLocations] == AdjacencyOf(m);
      assert Square(m);
      AdjacencyClosed(m);
    }

    /** Lines 105-107: the columns of the row's non-'x' entries, in increasing order. */
    static method NeighbourList(row: seq<Entry>) returns (ns: seq<nat>)
      ensures ns == Neighbours(row)
    {
      ns := [];
      for j := 0 to |row|
        invariant ns == Neighbours(row[..j])
      {
        assert row[..j + 1][..j] == row[..j];
        if row[j] != NoEdge {
          ns := ns + [j];
        }
      }
      assert row[..|row|] == row;
    }

    /**
     * cycleFinder (lines 99-110): with no graph given, the adjacency lists of
     * the generator's matrix; then every vertex followed by every path dfs
     * finds from it back to it, and of those the ones whose first and third
     * vertices differ.  A self loop gives a cycle of two vertices, where
     * cy[2] raises IndexError.
     */
    method CycleFinder(given: Graph) returns (r: Result<seq<seq<nat>>, CycleError>)
      requires Shaped() && Closed(given)
      ensures var g := if given == [] then AdjacencyOf(Adj()) else given;
        (r.Failure? <==> SelfLoop(g)) && (r.Success? ==> AllCycles(g, r.value))
    {
      if given == [] {
        var graph := AdjacencyLists();
        r := CyclesOf(graph);
        assert graph == AdjacencyOf(Adj());
      } else {
        r := CyclesOf(given);
      }
    }

    /** Lines 103-110 on a chosen graph: the rooted dfs paths, then the 2-cycle filter. */
    static method CyclesOf(graph: Graph) returns (r: Result<seq<seq<nat>>, CycleError>)
      requires Closed(graph)
      ensures r.Failure? <==> SelfLoop(graph)
      ensures r.Success? ==> AllCycles(graph, r.value)
    {
      var cycles: seq<seq<nat>> := [];
      for node := 0 to |graph|
        invariant forall cy :: cy in cycles ==> Candidate(graph, cy)
        invariant HasShort(cycles) <==> exists u :: 0 <= u < node && u in graph[u]
      {
        var paths := Dfs(graph, node, node);
        RootedCandidates(graph, node, paths);
        HasShortAppend(cycles, Rooted(node, paths));
        cycles := cycles + Rooted(node, paths);
      }
      r := KeepLong(cycles);
      if r.Success? {
        forall cy | cy in r.value
          ensures Cycle(graph, cy)
        {
          KeptIsCycle(graph, cy);
        }
      }
    }

    /** Lines 141-142: every location index followed by a space. */
    method IndexLine(n: nat) returns (line: string)
      ensures line == Spaced(NatWords(Upto(n)))
    {
      ghost var ws := NatWords(Upto(n));
      line := "";
      for i := 0 to n
        invariant line == Spaced(ws[..i])
      {
        assert ws[..i + 1][..i] == ws[..i];
        line := line + NatToString(i) + " ";
      }
      assert ws[..n] == ws;
    }

    /** Lines 145-146: every home, in the set's iteration order, followed by a space. */
    method HomeLine(homeOrder: seq<nat>) returns (line: string)
      ensures line == Spaced(NatWords(homeOrder))
    {
      ghost var ws := NatWords(homeOrder);
      line := "";
      for t := 0 to |homeOrder|
        invariant line == Spaced(ws[..t])
      {
        assert ws[..t + 1][..t] == ws[..t];
        line := line + NatToString(homeOrder[t]) + " ";
      }
      assert ws[..|homeOrder|] == ws;
    }

    /** Lines 150-151: every entry of a row followed by a space. */
    method RowLine(row: seq<Entry>, fmt: real -> string) returns (line: string)
      ensures line == Spaced(EntryWords(row, fmt))
    {
      ghost var ws := EntryWords(row, fmt);
      line := "";
      for j := 0 to |row|
        invariant line == Spaced(ws[..j])
      {
        assert ws[..j + 1][..j] == ws[..j];
        line := line + EntryWord(row[j], fmt) + " ";
      }
      assert ws[..|row|] == ws;
    }

    /**
     * writeInput (lines 134-154): nothing for -1, otherwise the file
     * "input<k>.txt" and its text.  homeOrder is the order in which Python
     * iterates the set homeList, and fmt is str() on a float weight.
     * InputLayout states what the text holds.
     */
    method WriteInput(inputNum: int, homeOrder: seq<nat>, fmt: real -> string) returns (file: Option<(string, string)>)
      requires Shaped()
      requires Distinct(homeOrder) && forall h :: h in homeOrder <==> h in homeList
      ensures file.None? <==> inputNum == -1
      ensures file.Some? ==> file.value.0 == "input" + IntToString(inputNum) + ".txt"
      ensures file.Some? ==> file.value.1 == InputText(numLocations, numHomes, homeOrder, startVertex, Adj(), fmt)
    {
      if inputNum == -1 {
        return None;
      }
      var name := "input" + IntToString(inputNum) + ".txt";
      ghost var ls := InputLines(numLocations, numHomes, homeOrder, startVertex, Adj(), fmt);
      var text := HeaderText(homeOrder, ls);
      text := RowsText(text, ls, fmt);
      file := Some((name, text));
    }

    /** Lines 139-147: the first five lines of the instance file. */
    method HeaderText(homeOrder: seq<nat>, ghost ls: seq<string>) returns (text: string)
      requires |ls| >= 5 && ls[0] == NatToString(numLocations) && ls[1] == NatToString(numHomes)
      requires ls[2] == Spaced(NatWords(Upto(numLocations))) && ls[3] == Spaced(NatWords(homeOrder))
      requires ls[4] == NatToString(startVertex)
      ensures text == Unlines(ls[..5])
    {
      text := NatToString(numLocations) + "\n";
      assert Unlines(ls[..1]) == text by {
        assert ls[..1][1..] == [];
      }
      AppendLine(ls, 1, text, NatToString(numHomes));
      text := text + NatToString(numHomes) + "\n";
      var line := IndexLine(numLocations);
      AppendLine(ls, 2, text, line);
      text := text + line + "\n";
      line := HomeLine(homeOrder);
      AppendLine(ls, 3, text, line);
      text := text + line + "\n";
      AppendLine(ls, 4, text, NatToString(startVertex));
      text := text + NatToString(startVertex) + "\n";
    }

    /** Lines 149-152: one line per row of the matrix after the header. */
    method RowsText(header: string, ghost ls: seq<string>, fmt: real -> string) returns (text: string)
      requires Shaped() && |ls| == 5 + numLocations && header == Unlines(ls[..5])
      requires forall t :: 5 <= t < |ls| ==> ls[t] == Spaced(EntryWords(Adj()[t - 5], fmt))
      ensures text == Unlines(ls)
    {
      text := header;
      for i := 0 to numLocations
        invariant text == Unlines(ls[..5 + i])
      {
        var line := RowLine(vertices[i].adjList, fmt);
        assert ls[5 + i] == Spaced(EntryWords(Adj()[i], fmt));
        AppendLine(ls, 5 + i, text, line);
        text := text + line + "\n";
      }
      assert ls[..5 + numLocations] == ls;
    }

    /** Lines 79-85: the number of entries other than 'x', divided by the number of vertices. */
    method AvgDegree() returns (avg: Option<real>)
      requires Shaped()
      ensures avg.Some? <==> numLocations > 0
      ensures avg.Some? ==> avg.value == CountEntries(Adj()) as real / numLocations as real
    {
      var totalDegree: nat := 0;
      ghost var m := Adj();
      for i := 0 to numLocations
        invariant totalDegree == CountEntries(m[..i])
      {
        ghost var before := totalDegree;
        var row := vertices[i].adjList;
        assert row == m[i] && |row| == numLocations;
        for j := 0 to numLocations
          invariant totalDegree == before + RowCount(row[..j])
        {
          assert row[..j + 1][..j] == row[..j];
          if row[j] != NoEdge {
            totalDegree := totalDegree + 1;
          }
        }
        assert row[..numLocations] == row;
        assert m[..i + 1][..i] == m[..i];
      }
      assert m[..numLocations] == m;
      assert totalDegree == CountEntries(Adj());
      if numLocations == 0 {
        return None;
      }
      avg := Some(totalDegree as real / numLocations as real);
    }
  }
}
