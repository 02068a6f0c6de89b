/**
 * The dropoff assigner of BaseSolver.find_best_dropoffs: an all-pairs
 * shortest-distance table built from the adjacency matrix and relaxed in place
 * by Floyd-Warshall, then, for every home, the car stop nearest to it.
 */
module Dropoffs {
  import opened Results
  import opened Weights

  /** adjacency_matrix: row r, column c holds 'x' or the weight of edge r -> c. */
  type Matrix = seq<seq<Entry>>

  /** One row of |adj| entries per location. */
  ghost predicate IsSquare(adj: Matrix)
  {
    forall r :: 0 <= r < |adj| ==> |adj[r]| == |adj|
  }

  /** A square matrix whose weights are distances (never negative). */
  ghost predicate WellFormed(adj: Matrix)
  {
    IsSquare(adj) &&
    forall r, c :: 0 <= r < |adj| && 0 <= c < |adj| && adj[r][c].Edge? ==> adj[r][c].w >= 0.0
  }

  /** The table before relaxation: 0 on the diagonal, inf for 'x', the weight elsewhere. */
  function Init(adj: Matrix, r: nat, c: nat): Ext
    requires IsSquare(adj) && r < |adj| && c < |adj|
  {
    if c == r then Fin(0.0)
    else if adj[r][c].NoEdge? then Inf
    else Fin(adj[r][c].w)
  }

  /**
   * The Floyd-Warshall recurrence: the shortest distance from i to j using only
   * intermediate locations below k.
   */
  ghost function Dist(adj: Matrix, k: nat, i: nat, j: nat): Ext
    requires IsSquare(adj) && k <= |adj| && i < |adj| && j < |adj|
    decreases k
  {
    if k == 0 then Init(adj, i, j)
    else Min(Dist(adj, k - 1, i, j), Add(Dist(adj, k - 1, i, k - 1), Dist(adj, k - 1, k - 1, j)))
  }

  /** The final entry shortest_distances[a][b]. */
  ghost function D(adj: Matrix, a: nat, b: nat): Ext
    requires IsSquare(adj) && a < |adj| && b < |adj|
  {
    Dist(adj, |adj|, a, b)
  }

  // ---------------------------------------------------------------------------
  // Walks and their weights: what "shortest distance" means.

  /** p is a walk from i to j over locations of adj whose inner locations are below k. */
  ghost predicate IsWalk(adj: Matrix, p: seq<nat>, i: nat, j: nat, k: nat)
  {
    |p| >= 1 && p[0] == i && p[|p| - 1] == j &&
    (forall t :: 0 <= t < |p| ==> p[t] < |adj|) &&
    (forall t :: 0 < t < |p| - 1 ==> p[t] < k)
  }

  /** The sum of the steps' entries of the unrelaxed table. */
  ghost function WalkWeight(adj: Matrix, p: seq<nat>): Ext
    requires IsSquare(adj) && forall t :: 0 <= t < |p| ==> p[t] < |adj|
    decreases |p|
  {
    if |p| <= 1 then Fin(0.0) else Add(Init(adj, p[0], p[1]), WalkWeight(adj, p[1..]))
  }

  lemma {:induction false} WalkWeightAppend(adj: Matrix, p: seq<nat>, q: seq<nat>)
    requires IsSquare(adj) && |p| >= 1 && |q| >= 1 && p[|p| - 1] == q[0]
    requires forall t :: 0 <= t < |p| ==> p[t] < |adj|
    requires forall t :: 0 <= t < |q| ==> q[t] < |adj|
    ensures forall t :: 0 <= t < |p + q[1..]| ==> (p + q[1..])[t] < |adj|
    ensures WalkWeight(adj, p + q[1..]) == Add(WalkWeight(adj, p), WalkWeight(adj, q))
    decreases |p|
  {
    var pq := p + q[1..];
    if |p| == 1 {
      assert pq == q;
    } else {
      WalkWeightAppend(adj, p[1..], q);
      assert pq[1..] == p[1..] + q[1..];
      assert pq[0] == p[0] && pq[1] == p[1];
      calc {
        WalkWeight(adj, pq);
        Add(Init(adj, p[0], p[1]), WalkWeight(adj, p[1..] + q[1..]));
        Add(Init(adj, p[0], p[1]), Add(WalkWeight(adj, p[1..]), WalkWeight(adj, q)));
        Add(Add(Init(adj, p[0], p[1]), WalkWeight(adj, p[1..])), WalkWeight(adj, q));
      }
    }
  }

  lemma {:induction false} DistNonNeg(adj: Matrix, k: nat, i: nat, j: nat)
    requires WellFormed(adj) && k <= |adj| && i < |adj| && j < |adj|
    ensures NonNeg(Dist(adj, k, i, j))
    decreases k
  {
    if k > 0 {
      DistNonNeg(adj, k - 1, i, j);
      DistNonNeg(adj, k - 1, i, k - 1);
      DistNonNeg(adj, k - 1, k - 1, j);
    }
  }

  /** With non-negative weights relaxation keeps the diagonal at 0. */
  lemma {:induction false} DiagonalZero(adj: Matrix, k: nat, i: nat)
    requires WellFormed(adj) && k <= |adj| && i < |adj|
    ensures Dist(adj, k, i, i) == Fin(0.0)
    decreases k
  {
    if k > 0 {
      DiagonalZero(adj, k - 1, i);
      DistNonNeg(adj, k - 1, i, k - 1);
      DistNonNeg(adj, k - 1, k - 1, i);
    }
  }

  /**
   * Round k never changes row k or column k.  This is why the Python loop may
   * relax shortest_distances in place.
   */
  lemma Stable(adj: Matrix, k: nat, i: nat)
    requires WellFormed(adj) && k < |adj| && i < |adj|
    ensures Dist(adj, k + 1, i, k) == Dist(adj, k, i, k)
    ensures Dist(adj, k + 1, k, i) == Dist(adj, k, k, i)
  {
    DiagonalZero(adj, k, k);
    DistNonNeg(adj, k, i, k);
    DistNonNeg(adj, k, k, i);
  }

  /** Relaxation never increases an entry: each is at most its initial value. */
  lemma {:induction false} DistAtMostInit(adj: Matrix, k: nat, i: nat, j: nat)
    requires WellFormed(adj) && k <= |adj| && i < |adj| && j < |adj|
    ensures Le(Dist(adj, k, i, j), Init(adj, i, j))
    decreases k
  {
    if k > 0 {
      DistAtMostInit(adj, k - 1, i, j);
    }
  }

  /** A walk that achieves Dist(adj, k, i, j). */
  ghost function Witness(adj: Matrix, k: nat, i: nat, j: nat): (p: seq<nat>)
    requires WellFormed(adj) && k <= |adj| && i < |adj| && j < |adj|
    ensures IsWalk(adj, p, i, j, k)
    ensures WalkWeight(adj, p) == Dist(adj, k, i, j)
    decreases k
  {
    if k == 0 then
      [i, j]
    else if !Lt(Add(Dist(adj, k - 1, i, k - 1), Dist(adj, k - 1, k - 1, j)), Dist(adj, k - 1, i, j)) then
      Witness(adj, k - 1, i, j)
    else
      var p := Witness(adj, k - 1, i, k - 1);
      var q := Witness(adj, k - 1, k - 1, j);
      WitnessJoin(adj, k, i, j, p, q);
      p + q[1..]
  }

  /** Joining the best walks to and from k - 1 gives the best walk when going through k - 1 is shorter. */
  lemma WitnessJoin(adj: Matrix, k: nat, i: nat, j: nat, p: seq<nat>, q: seq<nat>)
    requires WellFormed(adj) && 0 < k <= |adj| && i < |adj| && j < |adj|
    requires IsWalk(adj, p, i, k - 1, k - 1) && WalkWeight(adj, p) == Dist(adj, k - 1, i, k - 1)
    requires IsWalk(adj, q, k - 1, j, k - 1) && WalkWeight(adj, q) == Dist(adj, k - 1, k - 1, j)
    requires Lt(Add(Dist(adj, k - 1, i, k - 1), Dist(adj, k - 1, k - 1, j)), Dist(adj, k - 1, i, j))
    ensures IsWalk(adj, p + q[1..], i, j, k)
    ensures WalkWeight(adj, p + q[1..]) == Dist(adj, k, i, j)
  {
    WalkWeightAppend(adj, p, q);
    var pq := p + q[1..];
    forall t | 0 < t < |pq| - 1
      ensures pq[t] < k
    {
      if t >= |p| {
        assert pq[t] == q[t - |p| + 1];
      }
    }
  }

  /** Every walk from i to j with inner locations below k weighs at least Dist(adj, k, i, j). */
  lemma {:induction false} DistIsLowerBound(adj: Matrix, k: nat, i: nat, j: nat, p: seq<nat>)
    requires WellFormed(adj) && k <= |adj| && i < |adj| && j < |adj|
    requires IsWalk(adj, p, i, j, k)
    ensures Le(Dist(adj, k, i, j), WalkWeight(adj, p))
    decreases k, |p|
  {
    if k == 0 {
      if |p| == 1 {
        assert Dist(adj, 0, i, j) == Fin(0.0);
      } else {
        assert |p| == 2;
        assert WalkWeight(adj, p) == Add(Init(adj, i, j), Fin(0.0));
      }
    } else if forall t :: 0 < t < |p| - 1 ==> p[t] != k - 1 {
      DistIsLowerBound(adj, k - 1, i, j, p);
    } else {
      var f :| 0 < f < |p| - 1 && p[f] == k - 1;
      var pre, post := p[..f + 1], p[f..];
      SplitWalk(adj, p, i, j, k, f);
      DistIsLowerBound(adj, k, i, k - 1, pre);
      DistIsLowerBound(adj, k, k - 1, j, post);
      ThroughLast(adj, k, i, j, pre, post);
    }
  }

  /** Cutting a walk at a visit of k - 1 gives a walk to k - 1 and a walk from it. */
  lemma SplitWalk(adj: Matrix, p: seq<nat>, i: nat, j: nat, k: nat, f: nat)
    requires 0 < k && IsWalk(adj, p, i, j, k) && 0 < f < |p| - 1 && p[f] == k - 1
    ensures IsWalk(adj, p[..f + 1], i, k - 1, k) && IsWalk(adj, p[f..], k - 1, j, k)
    ensures p[..f + 1] + p[f..][1..] == p
  {
    assert p[..f + 1] + p[f..][1..] == p;
  }

  /** A walk through k - 1 weighs at least the relaxed route through k - 1. */
  lemma ThroughLast(adj: Matrix, k: nat, i: nat, j: nat, pre: seq<nat>, post: seq<nat>)
    requires WellFormed(adj) && 0 < k <= |adj| && i < |adj| && j < |adj|
    requires IsWalk(adj, pre, i, k - 1, k) && IsWalk(adj, post, k - 1, j, k)
    requires Le(Dist(adj, k, i, k - 1), WalkWeight(adj, pre))
    requires Le(Dist(adj, k, k - 1, j), WalkWeight(adj, post))
    ensures forall t :: 0 <= t < |pre + post[1..]| ==> (pre + post[1..])[t] < |adj|
    ensures Le(Dist(adj, k, i, j), WalkWeight(adj, pre + post[1..]))
  {
    var b, c := Dist(adj, k - 1, i, k - 1), Dist(adj, k - 1, k - 1, j);
    var x, y := WalkWeight(adj, pre), WalkWeight(adj, post);
    assert Le(b, x) by {
      Stable(adj, k - 1, i);
    }
    assert Le(c, y) by {
      Stable(adj, k - 1, j);
    }
    MinBelowRoute(Dist(adj, k - 1, i, j), b, c, x, y);
    assert Dist(adj, k, i, j) == Min(Dist(adj, k - 1, i, j), Add(b, c));
    WalkWeightAppend(adj, pre, post);
  }

  /**
   * After the triple loop, shortest_distances[i][j] is the minimum weight of a
   * walk from i to j: some walk achieves it and none is lighter.
   */
  lemma ShortestDistance(adj: Matrix, i: nat, j: nat)
    requires WellFormed(adj) && i < |adj| && j < |adj|
    ensures exists p :: IsWalk(adj, p, i, j, |adj|) && WalkWeight(adj, p) == D(adj, i, j)
    ensures forall p :: IsWalk(adj, p, i, j, |adj|) ==> Le(D(adj, i, j), WalkWeight(adj, p))
  {
    var w := Witness(adj, |adj|, i, j);
    forall p | IsWalk(adj, p, i, j, |adj|)
      ensures Le(D(adj, i, j), WalkWeight(adj, p))
    {
      DistIsLowerBound(adj, |adj|, i, j, p);
    }
  }

  /** The final table satisfies the triangle inequality. */
  lemma TriangleInequality(adj: Matrix, i: nat, m: nat, j: nat)
    requires WellFormed(adj) && i < |adj| && m < |adj| && j < |adj|
    ensures Le(D(adj, i, j), Add(D(adj, i, m), D(adj, m, j)))
  {
    var p := Witness(adj, |adj|, i, m);
    var q := Witness(adj, |adj|, m, j);
    WalkWeightAppend(adj, p, q);
    DistIsLowerBound(adj, |adj|, i, j, p + q[1..]);
  }

  /** The final table never exceeds the matrix, and its diagonal is 0. */
  lemma RelaxationBounds(adj: Matrix, i: nat, j: nat)
    requires WellFormed(adj) && i < |adj| && j < |adj|
    ensures Le(D(adj, i, j), Init(adj, i, j))
    ensures D(adj, i, i) == Fin(0.0)
  {
    DistAtMostInit(adj, |adj|, i, j);
    DiagonalZero(adj, |adj|, i);
  }

  // ---------------------------------------------------------------------------
  // The table, built and relaxed in place.

  /** Lines 36-45: a fresh V x V table holding the unrelaxed distances. */
  method InitTable(adj: Matrix) returns (d: array2<Ext>)
    requires IsSquare(adj)
    ensures fresh(d) && d.Length0 == |adj| && d.Length1 == |adj|
    ensures forall a, b :: 0 <= a < |adj| && 0 <= b < |adj| ==> d[a, b] == Init(adj, a, b)
  {
    var V := |adj|;
    d := new Ext[V, V];
    for r := 0 to V
      invariant forall a, b :: 0 <= a < r && 0 <= b < V ==> d[a, b] == Init(adj, a, b)
    {
      for c := 0 to V
        invariant forall a, b :: 0 <= a < r && 0 <= b < V ==> d[a, b] == Init(adj, a, b)
        invariant forall b :: 0 <= b < c ==> d[r, b] == Init(adj, r, b)
      {
        if c == r {
          d[r, c] := Fin(0.0);
        } else if adj[r][c].NoEdge? {
          d[r, c] := Inf;
        } else {
          d[r, c] := Fin(adj[r][c].w);
        }
      }
    }
  }

  /** Lines 48-51: the k/i/j triple loop, relaxing the table in place. */
  method FloydWarshall(ghost adj: Matrix, d: array2<Ext>)
    requires WellFormed(adj) && d.Length0 == |adj| && d.Length1 == |adj|
    requires forall a, b :: 0 <= a < |adj| && 0 <= b < |adj| ==> d[a, b] == Init(adj, a, b)
    modifies d
    ensures forall a, b :: 0 <= a < |adj| && 0 <= b < |adj| ==> d[a, b] == D(adj, a, b)
  {
    var V := d.Length0;
    for k := 0 to V
      invariant forall a, b :: 0 <= a < V && 0 <= b < V ==> d[a, b] == Dist(adj, k, a, b)
    {
      for i := 0 to V
        invariant forall a, b :: 0 <= a < V && 0 <= b < V ==>
          d[a, b] == Dist(adj, if a < i then k + 1 else k, a, b)
      {
        RelaxRow(adj, d, k, i);
      }
    }
  }

  /** The innermost loop of lines 50-51: row i relaxed through location k. */
  method RelaxRow(ghost adj: Matrix, d: array2<Ext>, k: nat, i: nat)
    requires WellFormed(adj) && d.Length0 == |adj| && d.Length1 == |adj| && k < |adj| && i < |adj|
    requires forall a, b :: 0 <= a < |adj| && 0 <= b < |adj| ==>
      d[a, b] == Dist(adj, if a < i then k + 1 else k, a, b)
    modifies d
    ensures forall a, b :: 0 <= a < |adj| && 0 <= b < |adj| ==>
      d[a, b] == Dist(adj, if a <= i then k + 1 else k, a, b)
  {
    var V := d.Length0;
    Stable(adj, k, i);
    for j := 0 to V
      invariant forall a, b :: 0 <= a < V && 0 <= b < V ==>
        d[a, b] == Dist(adj, if a < i || (a == i && b < j) then k + 1 else k, a, b)
    {
      Stable(adj, k, j);
      d[i, j] := Min(d[i, j], Add(d[i, k], d[k, j]));
    }
  }

  // ---------------------------------------------------------------------------
  // Home names to indices: list_of_locations.index(home_name).

  /** Python `names.index(x)`: the first position holding x, or None where Python raises. */
  function IndexOf(names: seq<string>, x: string): (r: Option<nat>)
    ensures r.Some? ==> r.value < |names| && names[r.value] == x &&
                        forall t :: 0 <= t < r.value ==> names[t] != x
    ensures r.None? <==> x !in names
  {
    if names == [] then None
    else if names[0] == x then Some(0)
    else match IndexOf(names[1..], x)
      case None => None
      case Some(t) => Some(t + 1)
  }

  datatype DropoffError =
    | UnknownHome(name: string)   // list_of_locations.index raises ValueError
    | NoCarStops                  // best_dropoff stays None and indexing with it raises

  /** Lines 54-56: the home indices, or the first home that is not a location. */
  function HomeIndices(locations: seq<string>, homes: seq<string>): (r: Result<seq<nat>, DropoffError>)
    ensures r.Success? <==> forall t :: 0 <= t < |homes| ==> homes[t] in locations
    ensures r.Success? ==> |r.value| == |homes|
    ensures r.Success? ==> forall t :: 0 <= t < |homes| ==> IndexOf(locations, homes[t]) == Some(r.value[t])
    ensures r.Failure? ==> exists t :: 0 <= t < |homes| && r.error == UnknownHome(homes[t]) && homes[t] !in locations &&
                                       forall u :: 0 <= u < t ==> homes[u] in locations
    decreases |homes|
  {
    if homes == [] then Success([])
    else
      var last := homes[|homes| - 1];
      match HomeIndices(locations, homes[..|homes| - 1])
      case Failure(e) => Failure(e)
      case Success(xs) =>
        match IndexOf(locations, last)
        case None => Failure(UnknownHome(last))
        case Some(x) => Success(xs + [x])
  }

  // ---------------------------------------------------------------------------
  // The assignment of homes to car stops.

  /** All stops are locations of adj. */
  ghost predicate StopsIn(adj: Matrix, stops: seq<nat>)
  {
    forall t :: 0 <= t < |stops| ==> stops[t] < |adj|
  }

  /**
   * Lines 65-68 over the first n stops: the position of the stop the loop keeps
   * for home h.  A later stop replaces the kept one only when strictly nearer.
   */
  ghost function NearestPos(adj: Matrix, stops: seq<nat>, h: nat, n: nat): (b: nat)
    requires WellFormed(adj) && StopsIn(adj, stops) && h < |adj| && 0 < n <= |stops|
    ensures b < n
    ensures forall t :: 0 <= t < n ==> Le(D(adj, stops[b], h), D(adj, stops[t], h))
    ensures forall t :: 0 <= t < b ==> Lt(D(adj, stops[b], h), D(adj, stops[t], h))
    decreases n
  {
    if n == 1 then 0
    else
      var b := NearestPos(adj, stops, h, n - 1);
      if Lt(D(adj, stops[n - 1], h), D(adj, stops[b], h)) then n - 1 else b
  }

  /** The car stop where the rider living at h gets off. */
  ghost function Nearest(adj: Matrix, stops: seq<nat>, h: nat): nat
    requires WellFormed(adj) && StopsIn(adj, stops) && h < |adj| && |stops| > 0
  {
    stops[NearestPos(adj, stops, h, |stops|)]
  }

  /** One entry of the dropoffs dictionary: a stop and the homes left there, in order. */
  datatype Drop = Drop(stop: nat, homes: seq<nat>)

  /** The keys of the dictionary, in insertion order. */
  function Keys(ds: seq<Drop>): seq<nat>
  {
    if ds == [] then [] else [ds[0].stop] + Keys(ds[1..])
  }

  /** All homes of the dictionary, key after key. */
  function Flatten(ds: seq<Drop>): seq<nat>
  {
    if ds == [] then [] else ds[0].homes + Flatten(ds[1..])
  }

  /** No key occurs twice, as in a Python dict. */
  ghost predicate UniqueKeys(ds: seq<Drop>)
  {
    forall a, b :: 0 <= a < b < |ds| ==> ds[a].stop != ds[b].stop
  }

  /**
   * Line 70, `dropoffs[s] = dropoffs.get(s, []) + [home]`: an existing key keeps
   * its place and gains the home; a new key goes last.
   */
  function AddHome(ds: seq<Drop>, s: nat, home: nat): seq<Drop>
  {
    if ds == [] then [Drop(s, [home])]
    else if ds[0].stop == s then [Drop(s, ds[0].homes + [home])] + ds[1..]
    else [ds[0]] + AddHome(ds[1..], s, home)
  }

  /** AddHome keeps the keys and their order; a new key goes last. */
  lemma {:induction false} AddHomeKeys(ds: seq<Drop>, s: nat, home: nat)
    ensures Keys(AddHome(ds, s, home)) == if s in Keys(ds) then Keys(ds) else Keys(ds) + [s]
  {
    if ds != [] && ds[0].stop != s {
      AddHomeKeys(ds[1..], s, home);
    }
  }

  /** AddHome adds exactly one home to the dictionary. */
  lemma {:induction false} AddHomeHomes(ds: seq<Drop>, s: nat, home: nat)
    ensures multiset(Flatten(AddHome(ds, s, home))) == multiset(Flatten(ds)) + multiset{home}
  {
    var r := AddHome(ds, s, home);
    if ds == [] {
      assert Flatten(r) == [home];
    } else if ds[0].stop == s {
      assert Flatten(r) == ds[0].homes + [home] + Flatten(ds[1..]);
    } else {
      AddHomeHomes(ds[1..], s, home);
      assert Flatten(r) == ds[0].homes + Flatten(AddHome(ds[1..], s, home));
    }
  }

  /**
   * AddHome leaves the entries of other keys as they were and appends the home
   * to the list of s.
   */
  lemma {:induction false} AddHomeEntries(ds: seq<Drop>, s: nat, home: nat)
    requires UniqueKeys(ds)
    ensures forall e :: e in AddHome(ds, s, home) && e.stop != s ==> e in ds
    ensures forall e :: e in AddHome(ds, s, home) && e.stop == s ==>
      |e.homes| > 0 && e.homes[|e.homes| - 1] == home && (|e.homes| == 1 || Drop(s, e.homes[..|e.homes| - 1]) in ds)
  {
    var r := AddHome(ds, s, home);
    if ds == [] {
    } else if ds[0].stop == s {
      assert (ds[0].homes + [home])[..|ds[0].homes|] == ds[0].homes;
      forall e | e in r && e != r[0] ensures e in ds[1..] && e.stop != s {
        var t :| 0 <= t < |ds[1..]| && ds[1..][t] == e;
        assert ds[t + 1] == e;
      }
    } else {
      AddHomeEntries(ds[1..], s, home);
      forall e | e in r ensures e != r[0] ==> e in AddHome(ds[1..], s, home) { }
    }
  }

  lemma {:induction false} KeysUnique(ds: seq<Drop>)
    ensures |Keys(ds)| == |ds|
    ensures forall t :: 0 <= t < |ds| ==> Keys(ds)[t] == ds[t].stop
  {
    if ds != [] {
      KeysUnique(ds[1..]);
    }
  }

  /** The dictionary the loop of lines 62-70 builds, home after home. */
  ghost function Assign(adj: Matrix, stops: seq<nat>, homes: seq<nat>): seq<Drop>
    requires WellFormed(adj) && StopsIn(adj, stops) && |stops| > 0
    requires forall t :: 0 <= t < |homes| ==> homes[t] < |adj|
    decreases |homes|
  {
    if homes == [] then []
    else
      var h := homes[|homes| - 1];
      AddHome(Assign(adj, stops, homes[..|homes| - 1]), Nearest(adj, stops, h), h)
  }

  /** The sum, over homes, of the distance from the chosen stop to the home. */
  ghost function WalkCost(adj: Matrix, stops: seq<nat>, homes: seq<nat>): Ext
    requires WellFormed(adj) && StopsIn(adj, stops) && |stops| > 0
    requires forall t :: 0 <= t < |homes| ==> homes[t] < |adj|
    decreases |homes|
  {
    if homes == [] then Fin(0.0)
    else
      var h := homes[|homes| - 1];
      Add(WalkCost(adj, stops, homes[..|homes| - 1]), D(adj, Nearest(adj, stops, h), h))
  }

  /** Every home index is appended to exactly one dropoff list. */
  lemma {:induction false} AssignKeepsEveryHome(adj: Matrix, stops: seq<nat>, homes: seq<nat>)
    requires WellFormed(adj) && StopsIn(adj, stops) && |stops| > 0
    requires forall t :: 0 <= t < |homes| ==> homes[t] < |adj|
    ensures multiset(Flatten(Assign(adj, stops, homes))) == multiset(homes)
    decreases |homes|
  {
    if homes != [] {
      var init := homes[..|homes| - 1];
      var h := homes[|homes| - 1];
      AssignKeepsEveryHome(adj, stops, init);
      AddHomeHomes(Assign(adj, stops, init), Nearest(adj, stops, h), h);
      assert homes == init + [h];
    }
  }

  /** The keys are unique and every key is a car stop. */
  lemma {:induction false} AssignKeysAreStops(adj: Matrix, stops: seq<nat>, homes: seq<nat>)
    requires WellFormed(adj) && StopsIn(adj, stops) && |stops| > 0
    requires forall t :: 0 <= t < |homes| ==> homes[t] < |adj|
    ensures UniqueKeys(Assign(adj, stops, homes))
    ensures forall t :: 0 <= t < |Keys(Assign(adj, stops, homes))| ==> Keys(Assign(adj, stops, homes))[t] in stops
    decreases |homes|
  {
    if homes != [] {
      var init := homes[..|homes| - 1];
      var h := homes[|homes| - 1];
      AssignKeysAreStops(adj, stops, init);
      var prev := Assign(adj, stops, init);
      var s := Nearest(adj, stops, h);
      AddHomeUnique(prev, s, h);
      AddHomeKeys(prev, s, h);
    }
  }

  /** Adding a home never duplicates a key. */
  lemma AddHomeUnique(prev: seq<Drop>, s: nat, h: nat)
    requires UniqueKeys(prev)
    ensures UniqueKeys(AddHome(prev, s, h))
  {
    var r := AddHome(prev, s, h);
    AddHomeKeys(prev, s, h);
    KeysUnique(prev);
    KeysUnique(r);
    forall a, b | 0 <= a < b < |r| ensures r[a].stop != r[b].stop {
      assert Keys(r)[a] == r[a].stop && Keys(r)[b] == r[b].stop;
      if s !in Keys(prev) && b == |prev| {
        assert Keys(prev)[a] == r[a].stop;
      } else {
        assert Keys(prev)[a] == r[a].stop && Keys(prev)[b] == r[b].stop;
      }
    }
  }

  /** Every home of the dictionary is listed under the stop nearest to it. */
  ghost predicate AtNearest(adj: Matrix, stops: seq<nat>, ds: seq<Drop>)
    requires WellFormed(adj) && StopsIn(adj, stops) && |stops| > 0
  {
    forall e :: e in ds ==> Near(adj, stops, e)
  }

  /** Every home listed under e.stop has e.stop as its nearest stop. */
  ghost predicate Near(adj: Matrix, stops: seq<nat>, e: Drop)
    requires WellFormed(adj) && StopsIn(adj, stops) && |stops| > 0
  {
    forall h :: h in e.homes ==> h < |adj| && e.stop == Nearest(adj, stops, h)
  }

  /** Each home sits in the list of the stop nearest to it. */
  lemma {:induction false} AssignUsesNearest(adj: Matrix, stops: seq<nat>, homes: seq<nat>)
    requires WellFormed(adj) && StopsIn(adj, stops) && |stops| > 0
    requires forall t :: 0 <= t < |homes| ==> homes[t] < |adj|
    ensures AtNearest(adj, stops, Assign(adj, stops, homes))
    decreases |homes|
  {
    if homes != [] {
      var init := homes[..|homes| - 1];
      var h := homes[|homes| - 1];
      AssignUsesNearest(adj, stops, init);
      AssignKeysAreStops(adj, stops, init);
      AddHomeAtNearest(adj, stops, Assign(adj, stops, init), h);
    }
  }

  /** Leaving h at its nearest stop keeps every home at its nearest stop. */
  lemma AddHomeAtNearest(adj: Matrix, stops: seq<nat>, prev: seq<Drop>, h: nat)
    requires WellFormed(adj) && StopsIn(adj, stops) && |stops| > 0 && h < |adj|
    requires UniqueKeys(prev) && AtNearest(adj, stops, prev)
    ensures AtNearest(adj, stops, AddHome(prev, Nearest(adj, stops, h), h))
  {
    var s := Nearest(adj, stops, h);
    var r := AddHome(prev, s, h);
    AddHomeEntries(prev, s, h);
    forall e | e in r
      ensures Near(adj, stops, e)
    {
      if e.stop != s {
        assert e in prev;
      } else if |e.homes| > 1 {
        var hs := e.homes[..|e.homes| - 1];
        assert e.homes == hs + [h];
        assert Drop(s, hs) in prev;
      } else {
        assert e.homes == [h];
      }
    }
    assert AtNearest(adj, stops, r);
  }

  /** What find_best_dropoffs returns: the walking cost and the dropoffs dictionary. */
  datatype Assignment = Assignment(total: Ext, dropoffs: seq<Drop>)

  /** find_best_dropoffs as a function of its inputs. */
  ghost function BestDropoffs(adj: Matrix, locations: seq<string>, homes: seq<string>, stops: seq<nat>): Result<Assignment, DropoffError>
    requires WellFormed(adj) && StopsIn(adj, stops) && |locations| <= |adj|
  {
    match HomeIndices(locations, homes)
    case Failure(e) => Failure(e)
    case Success(hs) =>
      HomeIndicesBelow(locations, homes);
      AssignHomes(adj, stops, hs)
  }

  /** Every translated home is a location index. */
  lemma HomeIndicesBelow(locations: seq<string>, homes: seq<string>)
    requires HomeIndices(locations, homes).Success?
    ensures var hs := HomeIndices(locations, homes).value;
      forall t :: 0 <= t < |hs| ==> hs[t] < |locations|
  {
    var hs := HomeIndices(locations, homes).value;
    forall t | 0 <= t < |hs|
      ensures hs[t] < |locations|
    {
      assert IndexOf(locations, homes[t]) == Some(hs[t]);
    }
  }

  /** The loop of lines 62-71 over translated homes: nothing to do, no stop to pick, or the assignment. */
  ghost function AssignHomes(adj: Matrix, stops: seq<nat>, hs: seq<nat>): Result<Assignment, DropoffError>
    requires WellFormed(adj) && StopsIn(adj, stops) && forall t :: 0 <= t < |hs| ==> hs[t] < |adj|
  {
    if hs == [] then Success(Assignment(Fin(0.0), []))
    else if stops == [] then Failure(NoCarStops)
    else Success(Assignment(WalkCost(adj, stops, hs), Assign(adj, stops, hs)))
  }

  /** Lines 54-56: translating the home names, failing at the first unknown one. */
  method TranslateHomes(locations: seq<string>, homes: seq<string>) returns (r: Result<seq<nat>, DropoffError>)
    ensures r == HomeIndices(locations, homes)
  {
    var homeIdx: seq<nat> := [];
    for t := 0 to |homes|
      invariant HomeIndices(locations, homes[..t]) == Success(homeIdx)
    {
      assert homes[..t + 1][..t] == homes[..t];
      var x := IndexOf(locations, homes[t]);
      if x.None? {
        r := Failure(UnknownHome(homes[t]));
        assert HomeIndices(locations, homes[..t + 1]) == Failure(UnknownHome(homes[t]));
        HomeIndicesPrefixFailure(locations, homes, t + 1);
        return;
      }
      homeIdx := homeIdx + [x.value];
    }
    assert homes[..|homes|] == homes;
    r := Success(homeIdx);
  }

  /**
   * Lines 65-68: the stop kept for one home, starting from None and replaced
   * only by a strictly nearer stop; None when there are no stops.
   */
  method ChooseDropoff(ghost adj: Matrix, d: array2<Ext>, stops: seq<nat>, home: nat) returns (best: Option<nat>)
    requires WellFormed(adj) && StopsIn(adj, stops) && home < |adj|
    requires d.Length0 == |adj| && d.Length1 == |adj|
    requires forall a, b :: 0 <= a < |adj| && 0 <= b < |adj| ==> d[a, b] == D(adj, a, b)
    ensures best.None? <==> stops == []
    ensures best.Some? ==> best.value == Nearest(adj, stops, home)
  {
    best := None;
    ghost var bestPos := 0;
    for s := 0 to |stops|
      invariant best.None? <==> s == 0
      invariant s > 0 ==> bestPos == NearestPos(adj, stops, home, s) && best == Some(stops[bestPos])
    {
      if best.None? || Lt(d[stops[s], home], d[best.value, home]) {
        best := Some(stops[s]);
        bestPos := s;
      }
    }
  }

  /**
   * BaseSolver.find_best_dropoffs.  The adjacency matrix is only read: the
   * distances live in a fresh table.
   */
  method FindBestDropoffs(locations: seq<string>, homes: seq<string>, stops: seq<nat>, adj: Matrix)
    returns (r: Result<Assignment, DropoffError>)
    requires WellFormed(adj) && StopsIn(adj, stops) && |locations| <= |adj|
    ensures r == BestDropoffs(adj, locations, homes, stops)
  {
    var d := InitTable(adj);
    FloydWarshall(adj, d);

    var translated := TranslateHomes(locations, homes);
    if translated.Failure? {
      return Failure(translated.error);
    }
    var homeIdx := translated.value;
    r := AssignAll(adj, d, stops, homeIdx);
  }

  /** Lines 62-71: each home goes to its nearest stop, and its distance is added to the total. */
  method AssignAll(ghost adj: Matrix, d: array2<Ext>, stops: seq<nat>, homeIdx: seq<nat>)
    returns (r: Result<Assignment, DropoffError>)
    requires WellFormed(adj) && StopsIn(adj, stops)
    requires forall t :: 0 <= t < |homeIdx| ==> homeIdx[t] < |adj|
    requires d.Length0 == |adj| && d.Length1 == |adj|
    requires forall a, b :: 0 <= a < |adj| && 0 <= b < |adj| ==> d[a, b] == D(adj, a, b)
    ensures r == AssignHomes(adj, stops, homeIdx)
  {
    var dropoffs: seq<Drop> := [];
    var total := Fin(0.0);
    for t := 0 to |homeIdx|
      invariant |stops| > 0 ==> dropoffs == Assign(adj, stops, homeIdx[..t]) && total == WalkCost(adj, stops, homeIdx[..t])
      invariant |stops| == 0 ==> t == 0 && dropoffs == [] && total == Fin(0.0)
    {
      var home := homeIdx[t];
      var best := ChooseDropoff(adj, d, stops, home);
      if best.None? {
        return Failure(NoCarStops);
      }
      dropoffs, total := Record(adj, d, stops, homeIdx, t, best.value, dropoffs, total);
    }
    assert homeIdx[..|homeIdx|] == homeIdx;
    r := Success(Assignment(total, dropoffs));
  }

  /** Line 70 and the running total: home t is left at its nearest stop, which adds its distance. */
  method Record(ghost adj: Matrix, d: array2<Ext>, stops: seq<nat>, hs: seq<nat>, t: nat, best: nat,
                dropoffs: seq<Drop>, total: Ext) returns (dropoffs': seq<Drop>, total': Ext)
    requires WellFormed(adj) && StopsIn(adj, stops) && |stops| > 0 && t < |hs|
    requires forall u :: 0 <= u < |hs| ==> hs[u] < |adj|
    requires d.Length0 == |adj| && d.Length1 == |adj|
    requires forall a, b :: 0 <= a < |adj| && 0 <= b < |adj| ==> d[a, b] == D(adj, a, b)
    requires best == Nearest(adj, stops, hs[t])
    requires dropoffs == Assign(adj, stops, hs[..t]) && total == WalkCost(adj, stops, hs[..t])
    ensures dropoffs' == Assign(adj, stops, hs[..t + 1]) && total' == WalkCost(adj, stops, hs[..t + 1])
  {
    AssignSnoc(adj, stops, hs, t);
    dropoffs' := AddHome(dropoffs, best, hs[t]);
    total' := Add(total, d[best, hs[t]]);
  }

  /** One more home: its stop's list gains it, and its distance joins the total. */
  lemma AssignSnoc(adj: Matrix, stops: seq<nat>, hs: seq<nat>, t: nat)
    requires WellFormed(adj) && StopsIn(adj, stops) && |stops| > 0 && t < |hs|
    requires forall u :: 0 <= u < |hs| ==> hs[u] < |adj|
    ensures Assign(adj, stops, hs[..t + 1]) == AddHome(Assign(adj, stops, hs[..t]), Nearest(adj, stops, hs[t]), hs[t])
    ensures WalkCost(adj, stops, hs[..t + 1]) == Add(WalkCost(adj, stops, hs[..t]), D(adj, Nearest(adj, stops, hs[t]), hs[t]))
  {
    assert hs[..t + 1][..t] == hs[..t];
  }

  /** Once a prefix of the homes fails to translate, so do all longer prefixes. */
  lemma {:induction false} HomeIndicesPrefixFailure(locations: seq<string>, homes: seq<string>, n: nat)
    requires n <= |homes| && HomeIndices(locations, homes[..n]).Failure?
    ensures HomeIndices(locations, homes) == HomeIndices(locations, homes[..n])
    decreases |homes| - n
  {
    if n < |homes| {
      assert homes[..n + 1][..n] == homes[..n];
      HomeIndicesPrefixFailure(locations, homes, n + 1);
    } else {
      assert homes[..n] == homes;
    }
  }
}
