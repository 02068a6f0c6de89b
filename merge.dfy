/**
 * The merge of two best-bound tables in sql.py: rows (input file, best
 * objective bound, optimal) from the local and a remote table, each read in
 * ascending input-file order, are merged two heads at a time by `compare`
 * and the leftovers are appended.
 */
module TableMerge {
  import opened Results

  /** One row of the models table. */
  datatype Row = Row(name: string, cost: real, optimal: bool)

  /** Python's `<` on strings: lexicographic order of code points. */
  predicate StrLess(a: string, b: string)
  {
    if a == [] then b != []
    else b != [] && (a[0] < b[0] || (a[0] == b[0] && StrLess(a[1..], b[1..])))
  }

  lemma {:induction false} StrLessIrreflexive(a: string)
    ensures !StrLess(a, a)
  {
    if a != [] {
      StrLessIrreflexive(a[1..]);
    }
  }

  lemma {:induction false} StrLessTransitive(a: string, b: string, c: string)
    requires StrLess(a, b) && StrLess(b, c)
    ensures StrLess(a, c)
  {
    if a != [] && b != [] && c != [] && a[0] == b[0] && b[0] == c[0] {
      StrLessTransitive(a[1..], b[1..], c[1..]);
    }
  }

  lemma StrLessAsymmetric(a: string, b: string)
    requires StrLess(a, b)
    ensures !StrLess(b, a)
  {
    if StrLess(b, a) {
      StrLessTransitive(a, b, a);
      StrLessIrreflexive(a);
    }
  }

  lemma {:induction false} StrLessTotal(a: string, b: string)
    ensures a == b || StrLess(a, b) || StrLess(b, a)
  {
    if a != [] && b != [] && a[0] == b[0] {
      StrLessTotal(a[1..], b[1..]);
      if a[1..] == b[1..] {
        assert a == [a[0]] + a[1..] && b == [b[0]] + b[1..];
      }
    }
  }

  /** For rows of the same input: a wins over b when it is optimal and b is not, or neither is and it is no dearer. */
  predicate NoWorse(a: Row, b: Row)
  {
    (a.optimal && !b.optimal) || (a.optimal == b.optimal && (a.optimal || a.cost <= b.cost))
  }

  /**
   * compare(a, b) at lines 55-76: the row to emit and whether to pop the
   * local and the remote head.
   */
  function Compare(a: Row, b: Row): (r: (Row, bool, bool))
    ensures r.0 == a || r.0 == b
    ensures a.name != b.name ==> r.0 == (if StrLess(b.name, a.name) then a else b)
    ensures r.1 || r.2
    ensures r.0 == a ==> r.1
    ensures r.0 == b && b != a ==> r.2
    ensures (r.1 && r.2) <==> a.name == b.name
    ensures a.name != b.name ==> StrLess(if r.0 == a then b.name else a.name, r.0.name)
    ensures a.name == b.name ==> NoWorse(r.0, if r.0 == a then b else a)
  {
    StrLessIrreflexive(a.name);
    StrLessTotal(a.name, b.name);
    if StrLess(b.name, a.name) then (a, true, false)
    else if StrLess(a.name, b.name) then (b, false, true)
    else if a.optimal && !b.optimal then (a, true, true)
    else if !a.optimal && b.optimal then (b, true, true)
    else if !a.optimal && !b.optimal then (if a.cost < b.cost then (a, true, true) else (b, true, true))
    else (a, true, true)
  }

  /** Ties: between rows of one input, equal cost and neither optimal, the remote row wins; both optimal, the local one. */
  lemma CompareTies(a: Row, b: Row)
    requires a.name == b.name
    ensures !a.optimal && !b.optimal && a.cost == b.cost ==> Compare(a, b).0 == b
    ensures a.optimal && b.optimal ==> Compare(a, b).0 == a
  {
    StrLessIrreflexive(a.name);
  }

  /** The rows the merge loop emits for the given local and remote rows, followed by the leftovers. */
  function Merge(local: seq<Row>, remote: seq<Row>): seq<Row>
    decreases |local| + |remote|
  {
    if local == [] || remote == [] then local + remote
    else
      var (w, popLocal, popRemote) := Compare(local[0], remote[0]);
      [w] + Merge(if popLocal then local[1..] else local, if popRemote then remote[1..] else remote)
  }

  /** The loop at lines 79-89 and the leftover append at line 91. */
  method MergeTables(local: seq<Row>, remote: seq<Row>) returns (best: seq<Row>)
    ensures best == Merge(local, remote)
  {
    var localRows := local;
    var remoteRows := remote;
    best := [];
    while |localRows| > 0 && |remoteRows| > 0
      invariant best + Merge(localRows, remoteRows) == Merge(local, remote)
      decreases |localRows| + |remoteRows|
    {
      var (better, popLocal, popRemote) := Compare(localRows[0], remoteRows[0]);
      best := best + [better];
      if popLocal {
        localRows := localRows[1..];
      }
      if popRemote {
        remoteRows := remoteRows[1..];
      }
    }
    best := best + (localRows + remoteRows);
  }

  /** Every emitted row is a row of one of the two tables. */
  lemma {:induction false} MergeRowsFromInputs(local: seq<Row>, remote: seq<Row>)
    ensures forall x :: x in Merge(local, remote) ==> x in local || x in remote
    decreases |local| + |remote|
  {
    if local != [] && remote != [] {
      var (w, pl, pr) := Compare(local[0], remote[0]);
      var l' := if pl then local[1..] else local;
      var r' := if pr then remote[1..] else remote;
      MergeRowsFromInputs(l', r');
      assert forall x :: x in l' ==> x in local;
      assert forall x :: x in r' ==> x in remote;
    }
  }

  /** Each turn emits one row and pops one or two, so max(|local|, |remote|) <= |output| <= |local| + |remote|. */
  lemma {:induction false} MergeLength(local: seq<Row>, remote: seq<Row>)
    ensures |local| <= |Merge(local, remote)| <= |local| + |remote|
    ensures |remote| <= |Merge(local, remote)|
    decreases |local| + |remote|
  {
    if local != [] && remote != [] {
      var (w, pl, pr) := Compare(local[0], remote[0]);
      MergeLength(if pl then local[1..] else local, if pr then remote[1..] else remote);
    }
  }

  /** The rows the loop at lines 79-89 appends, one per turn, before either table runs out. */
  function Emitted(local: seq<Row>, remote: seq<Row>): seq<Row>
    decreases |local| + |remote|
  {
    if local == [] || remote == [] then []
    else
      var (w, popLocal, popRemote) := Compare(local[0], remote[0]);
      [w] + Emitted(if popLocal then local[1..] else local, if popRemote then remote[1..] else remote)
  }

  /** How many local and how many remote rows the loop pops (the final values of i and j). */
  function Popped(local: seq<Row>, remote: seq<Row>): (p: (nat, nat))
    ensures p.0 <= |local| && p.1 <= |remote|
    ensures p.0 == |local| || p.1 == |remote|
    decreases |local| + |remote|
  {
    if local == [] || remote == [] then (0, 0)
    else
      var (w, popLocal, popRemote) := Compare(local[0], remote[0]);
      var (i, j) := Popped(if popLocal then local[1..] else local, if popRemote then remote[1..] else remote);
      (i + (if popLocal then 1 else 0), j + (if popRemote then 1 else 0))
  }

  /**
   * The shape of the output m of the loop: the rows e it emitted, one row
   * and one or two pops per turn, then exactly the rows it never popped,
   * local[p.0..] and remote[p.1..], unchanged and in order.
   */
  ghost predicate EmittedThenLeftover(local: seq<Row>, remote: seq<Row>, e: seq<Row>, p: (nat, nat), m: seq<Row>)
  {
    p.0 <= |local| && p.1 <= |remote| &&
    p.0 <= |e| && p.1 <= |e| && |e| <= p.0 + p.1 &&
    m == e + local[p.0..] + remote[p.1..]
  }

  /** The loop stops with one table exhausted, and the output has the shape above (lines 79-91). */
  lemma {:induction false} MergeEndsWithLeftover(local: seq<Row>, remote: seq<Row>)
    ensures Popped(local, remote).0 == |local| || Popped(local, remote).1 == |remote|
    ensures EmittedThenLeftover(local, remote, Emitted(local, remote), Popped(local, remote), Merge(local, remote))
    decreases |local| + |remote|
  {
    if local == [] || remote == [] {
      assert local[0..] == local && remote[0..] == remote;
    } else {
      var w, di, dj := OneTurn(local, remote);
      var l', r' := local[di..], remote[dj..];
      MergeEndsWithLeftover(l', r');
      LeftoverCons(local, remote, di, dj, w, Emitted(l', r'), Popped(l', r'), Merge(l', r'));
    }
  }

  /** One turn of the loop: emit the winner w, pop di local and dj remote heads, and carry on with the rest. */
  lemma OneTurn(local: seq<Row>, remote: seq<Row>) returns (w: Row, di: nat, dj: nat)
    requires local != [] && remote != []
    ensures di <= 1 && dj <= 1 && 1 <= di + dj
    ensures Merge(local, remote) == [w] + Merge(local[di..], remote[dj..])
    ensures Emitted(local, remote) == [w] + Emitted(local[di..], remote[dj..])
    ensures Popped(local, remote) == (Popped(local[di..], remote[dj..]).0 + di, Popped(local[di..], remote[dj..]).1 + dj)
  {
    var c := Compare(local[0], remote[0]);
    w, di, dj := c.0, if c.1 then 1 else 0, if c.2 then 1 else 0;
    assert local[0..] == local && remote[0..] == remote;
  }

  /** Emitting one row in front, after popping one or two heads, keeps the shape. */
  lemma LeftoverCons(local: seq<Row>, remote: seq<Row>, di: nat, dj: nat, w: Row, e: seq<Row>, p: (nat, nat), m: seq<Row>)
    requires di <= 1 && dj <= 1 && 1 <= di + dj && di <= |local| && dj <= |remote|
    requires EmittedThenLeftover(local[di..], remote[dj..], e, p, m)
    ensures EmittedThenLeftover(local, remote, [w] + e, (p.0 + di, p.1 + dj), [w] + m)
  {
    assert local[di..][p.0..] == local[p.0 + di..];
    assert remote[dj..][p.1..] == remote[p.1 + dj..];
  }

  // ---------------------------------------------------------------------------
  // What the table ends up holding, and the ascending merge the code evidently
  // intended.

  /** The tables' ORDER BY input_file: names strictly ascending (input_file is the primary key). */
  ghost predicate Ascending(rows: seq<Row>)
  {
    forall a, b :: 0 <= a < b < |rows| ==> StrLess(rows[a].name, rows[b].name)
  }

  /** What `REPLACE INTO` over the rows in order leaves for a name: its last row. */
  function Stored(rows: seq<Row>, name: string): Option<Row>
  {
    if rows == [] then None
    else if rows[|rows| - 1].name == name then Some(rows[|rows| - 1])
    else Stored(rows[..|rows| - 1], name)
  }

  /**
   * The loop as written, on ascending tables: the local table holds a
   * non-optimal row for "b" and the remote table an optimal one.  The remote
   * row is emitted first, the local rows follow as leftovers, and REPLACE
   * keeps the non-optimal local row.
   */
  lemma AsWrittenKeepsWorseRow()
    ensures var local := [Row("a", 5.0, false), Row("b", 3.0, false)];
            var remote := [Row("b", 1.0, true)];
            Ascending(local) && Ascending(remote) &&
            Merge(local, remote) == [remote[0], local[0], local[1]] &&
            Stored(Merge(local, remote), "b") == Some(local[1]) &&
            Compare(local[1], remote[0]).0 == remote[0] && !NoWorse(local[1], remote[0])
  {
    var local := [Row("a", 5.0, false), Row("b", 3.0, false)];
    var remote := [Row("b", 1.0, true)];
    assert StrLess("a", "b");
    assert Compare(local[0], remote[0]) == (remote[0], false, true);
    var m := Merge(local, remote);
    assert m == [remote[0]] + Merge(local, []);
    assert m[..2] == [remote[0], local[0]];
    StrLessIrreflexive("b");
  }

  /** compare with the order test turned round: the row with the smaller name goes first. */
  function CompareAscending(a: Row, b: Row): (r: (Row, bool, bool))
    ensures r.0 == a || r.0 == b
    ensures a.name != b.name ==> r.0 == (if StrLess(a.name, b.name) then a else b)
    ensures r.1 || r.2
    ensures r.0 == a ==> r.1
    ensures r.0 == b && b != a ==> r.2
    ensures (r.1 && r.2) <==> a.name == b.name
    ensures a.name != b.name ==> StrLess(r.0.name, if r.0 == a then b.name else a.name)
    ensures a.name == b.name ==> r == Compare(a, b)
  {
    StrLessIrreflexive(a.name);
    if StrLess(a.name, b.name) then (a, true, false)
    else if StrLess(b.name, a.name) then (b, false, true)
    else Compare(a, b)
  }

  /** The merge with CompareAscending. */
  function MergeAscending(local: seq<Row>, remote: seq<Row>): seq<Row>
    decreases |local| + |remote|
  {
    if local == [] || remote == [] then local + remote
    else
      var (w, popLocal, popRemote) := CompareAscending(local[0], remote[0]);
      [w] + MergeAscending(if popLocal then local[1..] else local, if popRemote then remote[1..] else remote)
  }

  /** Every row of the ascending merge comes from one of the tables. */
  lemma {:induction false} AscendingRowsFromInputs(local: seq<Row>, remote: seq<Row>)
    ensures forall x :: x in MergeAscending(local, remote) ==> x in local || x in remote
    decreases |local| + |remote|
  {
    if local != [] && remote != [] {
      var (w, pl, pr) := CompareAscending(local[0], remote[0]);
      var l' := if pl then local[1..] else local;
      var r' := if pr then remote[1..] else remote;
      AscendingRowsFromInputs(l', r');
      assert forall x :: x in l' ==> x in local;
      assert forall x :: x in r' ==> x in remote;
    }
  }

  lemma AscendingTail(rows: seq<Row>)
    requires Ascending(rows) && rows != []
    ensures Ascending(rows[1..])
    ensures forall x :: x in rows[1..] ==> StrLess(rows[0].name, x.name)
  {
    forall x | x in rows[1..] ensures StrLess(rows[0].name, x.name) {
      var t :| 0 <= t < |rows[1..]| && rows[1..][t] == x;
      assert rows[t + 1] == x;
    }
  }

  lemma AscendingLowerBound(rows: seq<Row>, name: string)
    requires Ascending(rows) && rows != [] && (name == rows[0].name || StrLess(name, rows[0].name))
    ensures forall x :: x in rows[1..] ==> StrLess(name, x.name)
  {
    AscendingTail(rows);
    forall x | x in rows[1..] ensures StrLess(name, x.name) {
      if name != rows[0].name {
        StrLessTransitive(name, rows[0].name, x.name);
      }
    }
  }

  lemma AscendingCons(w: Row, rest: seq<Row>)
    requires Ascending(rest)
    requires forall x :: x in rest ==> StrLess(w.name, x.name)
    ensures Ascending([w] + rest)
  {
    var s := [w] + rest;
    forall a, b | 0 <= a < b < |s| ensures StrLess(s[a].name, s[b].name) {
      if a == 0 {
        assert s[b] in rest;
      } else {
        assert s[a] == rest[a - 1] && s[b] == rest[b - 1];
      }
    }
  }

  /**
   * On ascending tables the corrected merge is ascending too, so every input
   * file appears in it once and REPLACE has nothing to overwrite.
   */
  lemma {:induction false} MergeAscendingSorted(local: seq<Row>, remote: seq<Row>)
    requires Ascending(local) && Ascending(remote)
    ensures Ascending(MergeAscending(local, remote))
    decreases |local| + |remote|
  {
    if local != [] && remote != [] {
      var a, b := local[0], remote[0];
      var (w, pl, pr) := CompareAscending(a, b);
      var l' := if pl then local[1..] else local;
      var r' := if pr then remote[1..] else remote;
      if pl { AscendingTail(local); }
      if pr { AscendingTail(remote); }
      MergeAscendingSorted(l', r');
      AscendingRowsFromInputs(l', r');
      StrLessTotal(a.name, b.name);
      assert StrLess(w.name, b.name) || w.name == b.name;
      AscendingLowerBound(local, w.name);
      AscendingLowerBound(remote, w.name);
      forall x | x in MergeAscending(l', r') ensures StrLess(w.name, x.name) {
        if x in l' && !pl {
          assert x == local[0] || x in local[1..];
        }
        if x in r' && !pr {
          assert x == remote[0] || x in remote[1..];
        }
      }
      AscendingCons(w, MergeAscending(l', r'));
    }
  }

  /**
   * A file present in both ascending tables keeps, in the corrected merge, the
   * row compare prefers: the optimal one, else the cheaper.
   */
  lemma {:induction false} MergeAscendingKeepsBetter(local: seq<Row>, remote: seq<Row>, i: nat, j: nat)
    requires Ascending(local) && Ascending(remote)
    requires i < |local| && j < |remote| && local[i].name == remote[j].name
    ensures Compare(local[i], remote[j]).0 in MergeAscending(local, remote)
    decreases |local| + |remote|
  {
    var a, b := local[0], remote[0];
    var (w, pl, pr) := CompareAscending(a, b);
    var l' := if pl then local[1..] else local;
    var r' := if pr then remote[1..] else remote;
    if i == 0 && j == 0 {
      assert w == Compare(a, b).0;
    } else {
      var i' := if pl then i - 1 else i;
      var j' := if pr then j - 1 else j;
      if i == 0 {
        // the remote head sorts before remote[j], which has the local head's name
        assert StrLess(b.name, remote[j].name);
        StrLessAsymmetric(b.name, a.name);
        assert !pl;
      }
      if j == 0 {
        assert StrLess(a.name, local[i].name);
        StrLessAsymmetric(a.name, b.name);
        assert !pr;
      }
      if pl { AscendingTail(local); assert l'[i'] == local[i]; }
      if pr { AscendingTail(remote); assert r'[j'] == remote[j]; }
      MergeAscendingKeepsBetter(l', r', i', j');
    }
  }
}
