/**
 * The driver of solver.py: the output-file text written by convertToFile,
 * the choice of the cheapest solver result and the "improved" flag in solve,
 * the parsing of the -m mode, and the skip / no-write decisions of
 * solve_from_file.  The solvers themselves, the SQLite bounds and the file
 * system are parameters.
 */
module Solver {
  import opened Results
  import opened Weights
  import opened Seqs
  import opened Text
  import opened Dropoffs

  // ---------------------------------------------------------------------------
  // convertToFile

  /**
   * The names of the locations at the given indices.  An index past the list
   * (where list_locs[node] raises) reads as the empty name; the methods below
   * require every index to be in range.
   */
  function Names(locs: seq<string>, idx: seq<nat>): (ns: seq<string>)
    ensures |ns| == |idx|
    ensures forall t :: 0 <= t < |idx| && idx[t] < |locs| ==> ns[t] == locs[idx[t]]
  {
    seq(|idx|, t requires 0 <= t < |idx| => if idx[t] < |locs| then locs[idx[t]] else "")
  }

  /** The locations of one dropoff entry: the stop, then its homes. */
  function DropIndices(d: Drop): seq<nat>
  {
    [d.stop] + d.homes
  }

  /** Every index of every entry names a location. */
  predicate DropsBelow(drops: seq<Drop>, n: nat)
  {
    forall t :: 0 <= t < |drops| ==> Below(DropIndices(drops[t]), n)
  }

  /** One line of names separated by single spaces, with its newline. */
  function NamesLine(locs: seq<string>, idx: seq<nat>): string
  {
    Unwords(Names(locs, idx)) + "\n"
  }

  /** The dropoff lines, one per dictionary entry in order. */
  function DropLines(locs: seq<string>, drops: seq<Drop>): string
  {
    if drops == [] then "" else NamesLine(locs, DropIndices(drops[0])) + DropLines(locs, drops[1..])
  }

  /** The text convertToFile passes to write_to_file. */
  function OutputText(locs: seq<string>, path: seq<nat>, drops: seq<Drop>): string
  {
    NamesLine(locs, path) + NatToString(|drops|) + "\n" + DropLines(locs, drops)
  }

  lemma {:induction false} DropLinesSnoc(locs: seq<string>, drops: seq<Drop>, d: Drop)
    ensures DropLines(locs, drops + [d]) == DropLines(locs, drops) + NamesLine(locs, DropIndices(d))
    decreases |drops|
  {
    if drops == [] {
      assert [d][1..] == [];
    } else {
      assert (drops + [d])[1..] == drops[1..] + [d];
      DropLinesSnoc(locs, drops[1..], d);
    }
  }

  /**
   * Lines 82-84 and 90-93: every name followed by a space, then stripped.  As
   * location names hold no whitespace, strip() removes just the last space.
   */
  method JoinNames(locs: seq<string>, idx: seq<nat>) returns (line: string)
    requires AllWords(locs) && Below(idx, |locs|)
    ensures line == Unwords(Names(locs, idx))
  {
    ghost var ns := Names(locs, idx);
    var s := "";
    for t := 0 to |idx|
      invariant s == Spaced(ns[..t])
    {
      assert ns[..t + 1][..t] == ns[..t];
      s := s + locs[idx[t]] + " ";
    }
    assert ns[..|idx|] == ns;
    NamesAreWords(locs, idx);
    StripSpaced(ns);
    line := Strip(s);
  }

  /** convertToFile, returning the text instead of writing it. */
  method ConvertToFile(path: seq<nat>, drops: seq<Drop>, locs: seq<string>) returns (text: string)
    requires AllWords(locs) && Below(path, |locs|) && DropsBelow(drops, |locs|)
    ensures text == OutputText(locs, path, drops)
  {
    var line := JoinNames(locs, path);
    text := line + "\n";
    text := text + NatToString(|drops|) + "\n";
    ghost var header := text;
    for t := 0 to |drops|
      invariant text == header + DropLines(locs, drops[..t])
    {
      var d := JoinNames(locs, DropIndices(drops[t]));
      assert drops[..t + 1] == drops[..t] + [drops[t]];
      DropLinesSnoc(locs, drops[..t], drops[t]);
      text := text + (d + "\n");
    }
    assert drops[..|drops|] == drops;
    assert drops[..|drops|] == drops;
  }

  lemma NamesAreWords(locs: seq<string>, idx: seq<nat>)
    requires AllWords(locs) && Below(idx, |locs|)
    ensures AllWords(Names(locs, idx))
  {
  }

  lemma NamesLineText(locs: seq<string>, idx: seq<nat>)
    requires AllWords(locs) && Below(idx, |locs|)
    ensures '\n' !in Unwords(Names(locs, idx))
  {
    NamesAreWords(locs, idx);
    UnwordsNoNewline(Names(locs, idx));
  }

  /** The dropoff part of the text has one line per entry: its stop, then its homes. */
  lemma {:induction false} DropLinesLayout(locs: seq<string>, drops: seq<Drop>)
    requires AllWords(locs) && DropsBelow(drops, |locs|)
    ensures |Lines(DropLines(locs, drops))| == |drops|
    ensures forall t :: 0 <= t < |drops| ==>
      Lines(DropLines(locs, drops))[t] == Unwords(Names(locs, DropIndices(drops[t])))
    decreases |drops|
  {
    if drops != [] {
      var first := Unwords(Names(locs, DropIndices(drops[0])));
      NamesLineText(locs, DropIndices(drops[0]));
      assert DropsBelow(drops[1..], |locs|) by {
        forall t | 0 <= t < |drops| - 1 ensures Below(DropIndices(drops[1..][t]), |locs|) {
          assert drops[1..][t] == drops[t + 1];
        }
      }
      DropLinesLayout(locs, drops[1..]);
      LinesCons(first, DropLines(locs, drops[1..]));
      assert DropLines(locs, drops) == first + "\n" + DropLines(locs, drops[1..]);
    }
  }

  /**
   * The layout of the output file (lines 81-95): the path names, the number of
   * dropoff entries, then one line per entry with its stop and homes; so the
   * file has 2 + |drops| lines.
   */
  lemma OutputLayout(locs: seq<string>, path: seq<nat>, drops: seq<Drop>)
    requires AllWords(locs) && Below(path, |locs|) && DropsBelow(drops, |locs|)
    ensures |Lines(OutputText(locs, path, drops))| == 2 + |drops|
    ensures Lines(OutputText(locs, path, drops))[0] == Unwords(Names(locs, path))
    ensures Lines(OutputText(locs, path, drops))[1] == NatToString(|drops|)
    ensures forall t :: 0 <= t < |drops| ==>
      Lines(OutputText(locs, path, drops))[2 + t] == Unwords(Names(locs, DropIndices(drops[t])))
  {
    var l0 := Unwords(Names(locs, path));
    var l1 := NatToString(|drops|);
    var rest := DropLines(locs, drops);
    NamesLineText(locs, path);
    NatToStringIsWord(|drops|);
    assert OutputText(locs, path, drops) == l0 + "\n" + (l1 + "\n" + rest);
    LinesCons(l0, l1 + "\n" + rest);
    LinesCons(l1, rest);
    DropLinesLayout(locs, drops);
  }

  /** Reading the file back with split() and int() recovers the names and the count. */
  lemma OutputReadBack(locs: seq<string>, path: seq<nat>, drops: seq<Drop>)
    requires AllWords(locs) && Below(path, |locs|) && DropsBelow(drops, |locs|)
    ensures |Lines(OutputText(locs, path, drops))| == 2 + |drops|
    ensures Words(Lines(OutputText(locs, path, drops))[0]) == Names(locs, path)
    ensures forall t :: 0 <= t < |Lines(OutputText(locs, path, drops))[1]| ==> IsDigit(Lines(OutputText(locs, path, drops))[1][t])
    ensures ParseNat(Lines(OutputText(locs, path, drops))[1]) == |drops|
    ensures forall t :: 0 <= t < |drops| ==>
      Words(Lines(OutputText(locs, path, drops))[2 + t]) == Names(locs, DropIndices(drops[t]))
  {
    OutputLayout(locs, path, drops);
    NamesAreWords(locs, path);
    WordsOfUnwords(Names(locs, path));
    ParseNatToString(|drops|);
    forall t | 0 <= t < |drops|
      ensures Words(Lines(OutputText(locs, path, drops))[2 + t]) == Names(locs, DropIndices(drops[t]))
    {
      NamesAreWords(locs, DropIndices(drops[t]));
      WordsOfUnwords(Names(locs, DropIndices(drops[t])));
    }
  }

  /** Every line of the file ends with a newline: the text holds 2 + |drops| of them. */
  lemma {:induction false} OutputNewlines(locs: seq<string>, path: seq<nat>, drops: seq<Drop>)
    requires AllWords(locs) && Below(path, |locs|) && DropsBelow(drops, |locs|)
    ensures Count(OutputText(locs, path, drops), '\n') == 2 + |drops|
    ensures OutputText(locs, path, drops)[|OutputText(locs, path, drops)| - 1] == '\n'
  {
    var l0 := Unwords(Names(locs, path));
    var l1 := NatToString(|drops|);
    var rest := DropLines(locs, drops);
    NamesLineText(locs, path);
    NatToStringIsWord(|drops|);
    CountAbsent(l0, '\n');
    CountAbsent(l1, '\n');
    DropLinesNewlines(locs, drops);
    var text := OutputText(locs, path, drops);
    assert text == l0 + ("\n" + (l1 + ("\n" + rest)));
    CountAppend(l0, "\n" + (l1 + ("\n" + rest)), '\n');
    CountAppend("\n", l1 + ("\n" + rest), '\n');
    CountAppend(l1, "\n" + rest, '\n');
    CountAppend("\n", rest, '\n');
    if rest == [] {
      assert text == (l0 + "\n" + l1) + "\n";
    } else {
      assert text == (l0 + "\n" + l1 + "\n") + rest;
    }
  }

  lemma {:induction false} DropLinesNewlines(locs: seq<string>, drops: seq<Drop>)
    requires AllWords(locs) && DropsBelow(drops, |locs|)
    ensures Count(DropLines(locs, drops), '\n') == |drops|
    ensures drops != [] ==> DropLines(locs, drops)[|DropLines(locs, drops)| - 1] == '\n'
    decreases |drops|
  {
    if drops != [] {
      var first := Unwords(Names(locs, DropIndices(drops[0])));
      NamesLineText(locs, DropIndices(drops[0]));
      assert DropsBelow(drops[1..], |locs|) by {
        forall t | 0 <= t < |drops| - 1 ensures Below(DropIndices(drops[1..][t]), |locs|) {
          assert drops[1..][t] == drops[t + 1];
        }
      }
      DropLinesNewlines(locs, drops[1..]);
      LineCountCons(first, DropLines(locs, drops[1..]), |drops| - 1);
    }
  }

  // ---------------------------------------------------------------------------
  // Mode parsing (lines 58-60) and the solvers of each mode (lines 21-26)

  datatype Mode = All | BruteForce | Ilp | Naive

  /** The key of solvers_mode naming each mode. */
  function ModeName(m: Mode): string
  {
    match m
    case All => "all"
    case BruteForce => "bf"
    case Ilp => "ilp"
    case Naive => "naive"
  }

  datatype ModeError =
    | MissingModeValue        // "-m" is the last parameter: IndexError
    | UnknownMode(name: string)  // not a key of solvers_mode: KeyError

  /** solvers_mode[name], or the KeyError it raises. */
  function ModeOf(name: string): (r: Result<Mode, ModeError>)
    ensures r.Success? ==> ModeName(r.value) == name
    ensures r.Failure? ==> r.error == UnknownMode(name) && forall m: Mode :: ModeName(m) != name
  {
    if name == "all" then Success(All)
    else if name == "bf" then Success(BruteForce)
    else if name == "ilp" then Success(Ilp)
    else if name == "naive" then Success(Naive)
    else Failure(UnknownMode(name))
  }

  /** The mode selected by the parameters: "ilp", or the parameter after the first "-m". */
  function ParseMode(params: seq<string>): (r: Result<Mode, ModeError>)
    ensures "-m" !in params ==> r == Success(Ilp)
  {
    match IndexOf(params, "-m")
    case None => ModeOf("ilp")
    case Some(i) => if i + 1 < |params| then ModeOf(params[i + 1]) else Failure(MissingModeValue)
  }

  /** What ParseMode answers when the first "-m" is at position i. */
  lemma ParseModeAt(params: seq<string>, i: nat)
    requires i < |params| && params[i] == "-m" && "-m" !in params[..i]
    ensures i == |params| - 1 ==> ParseMode(params) == Failure(MissingModeValue)
    ensures i < |params| - 1 ==> (ParseMode(params).Success? <==> exists m: Mode :: ModeName(m) == params[i + 1])
    ensures i < |params| - 1 && ParseMode(params).Success? ==> ModeName(ParseMode(params).value) == params[i + 1]
  {
    var r := IndexOf(params, "-m");
    assert r == Some(i);
  }

  /** The solver objects created at lines 17-19. */
  datatype SolverId = IlpSolver | BruteForceSolver | NaiveSolver

  /** solvers_mode: the solvers each mode runs, in order. */
  function Solvers(m: Mode): (ss: seq<SolverId>)
    ensures |ss| > 0
  {
    match m
    case All => [IlpSolver, BruteForceSolver]
    case BruteForce => [BruteForceSolver]
    case Ilp => [IlpSolver]
    case Naive => [NaiveSolver]
  }

  // ---------------------------------------------------------------------------
  // solve: the cheapest result and the improved flag

  /** A solver's answer: its cost, the car path and the dropoffs dictionary. */
  datatype Solution = Solution(cost: Ext, path: seq<nat>, dropoffs: seq<Drop>)

  /** The starting value of best_solution (line 49). */
  const Sentinel := Solution(Inf, [], [])

  /**
   * The position of the result the loop at lines 62-66 keeps among the first
   * results: the first one of least cost, or None when every cost is infinite
   * and the sentinel stays.
   */
  function BestAt(rs: seq<Solution>): (i: Option<nat>)
    ensures i.None? <==> forall t :: 0 <= t < |rs| ==> rs[t].cost.Inf?
    ensures i.Some? ==> i.value < |rs| && rs[i.value].cost.Fin?
    ensures i.Some? ==> forall t :: 0 <= t < |rs| ==> Le(rs[i.value].cost, rs[t].cost)
    ensures i.Some? ==> forall t :: 0 <= t < i.value ==> Lt(rs[i.value].cost, rs[t].cost)
  {
    if rs == [] then None
    else
      var p := BestAt(rs[..|rs| - 1]);
      var kept := if p.None? then Inf else rs[p.value].cost;
      if Lt(rs[|rs| - 1].cost, kept) then Some(|rs| - 1) else p
  }

  /** The value of best_solution after the loop. */
  function Chosen(rs: seq<Solution>): Solution
  {
    match BestAt(rs)
    case None => Sentinel
    case Some(i) => rs[i]
  }

  /** The chosen solution is the sentinel or a solver result, and no result is cheaper. */
  lemma ChosenIsCheapest(rs: seq<Solution>)
    ensures Chosen(rs) == Sentinel || Chosen(rs) in rs
    ensures forall t :: 0 <= t < |rs| ==> Le(Chosen(rs).cost, rs[t].cost)
  {
  }

  /** The results of the solvers of a mode, in order. */
  function Runs(run: SolverId -> Solution, ss: seq<SolverId>): seq<Solution>
  {
    seq(|ss|, t requires 0 <= t < |ss| => run(ss[t]))
  }

  /** The rule at line 68. */
  predicate Improved(params: seq<string>, prev: Option<real>, best: Solution)
  {
    "--force-write" in params || prev.None? || Lt(best.cost, Fin(prev.value))
  }

  /** What solve returns: whether to write, and the kept solution. */
  datatype Decision = Decision(improved: bool, best: Solution)

  /** solve as a function of the parameters, the stored bound and the solvers' answers. */
  function Decide(params: seq<string>, prev: Option<real>, run: SolverId -> Solution): Result<Decision, ModeError>
  {
    match ParseMode(params)
    case Failure(e) => Failure(e)
    case Success(m) =>
      var best := Chosen(Runs(run, Solvers(m)));
      Success(Decision(Improved(params, prev, best), best))
  }

  /**
   * solve.  `prev` is the stored best_objective_bound (None when the input has
   * no row) and `run` answers for each solver object.
   */
  method Solve(params: seq<string>, prev: Option<real>, run: SolverId -> Solution) returns (r: Result<Decision, ModeError>)
    ensures r == Decide(params, prev, run)
  {
    var mode := ParseMode(params);
    if mode.Failure? {
      return Failure(mode.error);
    }
    var solvers := Solvers(mode.value);
    ghost var rs := Runs(run, solvers);
    var best := Sentinel;
    for t := 0 to |solvers|
      invariant best == Chosen(rs[..t])
    {
      var solution := run(solvers[t]);
      assert rs[..t + 1][..t] == rs[..t];
      if Lt(solution.cost, best.cost) {
        best := solution;
      }
    }
    assert rs[..|solvers|] == rs;
    r := Success(Decision(Improved(params, prev, best), best));
  }

  /**
   * Without --force-write, solve reports no improvement exactly when a bound is
   * stored and no solver's result beats it.
   */
  lemma NotImprovedMeansNoBetterResult(params: seq<string>, prev: Option<real>, run: SolverId -> Solution)
    requires Decide(params, prev, run).Success?
    requires "--force-write" !in params
    ensures !Decide(params, prev, run).value.improved <==>
      prev.Some? && forall t :: 0 <= t < |Solvers(ParseMode(params).value)| ==>
        Le(Fin(prev.value), run(Solvers(ParseMode(params).value)[t]).cost)
  {
    var ss := Solvers(ParseMode(params).value);
    var rs := Runs(run, ss);
    var best := Chosen(rs);
    ChosenIsCheapest(rs);
    if prev.Some? && !Lt(best.cost, Fin(prev.value)) {
      forall t | 0 <= t < |ss| ensures Le(Fin(prev.value), run(ss[t]).cost) {
        assert rs[t] == run(ss[t]);
        LeTransitive(Fin(prev.value), best.cost, rs[t].cost);
      }
    }
    if prev.Some? && Lt(best.cost, Fin(prev.value)) {
      assert best != Sentinel;
      var i :| 0 <= i < |rs| && rs[i] == best;
      assert rs[i] == run(ss[i]);
    }
  }

  // ---------------------------------------------------------------------------
  // solve_from_file

  datatype Action =
    | Skipped                 // the stored row is optimal (lines 110-112)
    | NotImproved             // nothing is written (lines 119-121)
    | Written(text: string)   // the text given to write_to_file
    | Failed(error: ModeError)

  /** Line 110: a stored row whose optimal column is truthy, and no --no-skip. */
  predicate Skips(optimal: Option<int>, params: seq<string>)
  {
    optimal.Some? && optimal.value != 0 && "--no-skip" !in params
  }

  /** The path and dropoffs of every solver in ss name locations of the instance. */
  ghost predicate AnswersIn(run: SolverId -> Solution, ss: seq<SolverId>, n: nat)
  {
    forall s :: s in ss ==> Below(run(s).path, n) && DropsBelow(run(s).dropoffs, n)
  }

  /**
   * solve_from_file for one instance.  `optimal` is the stored optimal column
   * (None when the input has no row), `prev` the stored bound, `locs` the
   * location names read from the input file.
   */
  method SolveFromFile(optimal: Option<int>, prev: Option<real>, params: seq<string>, locs: seq<string>,
                       run: SolverId -> Solution) returns (a: Action)
    requires AllWords(locs)
    requires ParseMode(params).Success? ==> AnswersIn(run, Solvers(ParseMode(params).value), |locs|)
    ensures Skips(optimal, params) ==> a == Skipped
    ensures !Skips(optimal, params) ==> a != Skipped
    ensures a.Failed? <==> !Skips(optimal, params) && Decide(params, prev, run).Failure?
    ensures a == NotImproved <==> !Skips(optimal, params) && Decide(params, prev, run).Success? && !Decide(params, prev, run).value.improved
    ensures a.Written? ==> (Decide(params, prev, run).Success? &&
      var best := Decide(params, prev, run).value.best;
      Below(best.path, |locs|) && DropsBelow(best.dropoffs, |locs|) &&
      a.text == OutputText(locs, best.path, best.dropoffs))
  {
    if Skips(optimal, params) {
      return Skipped;
    }
    var r := Solve(params, prev, run);
    if r.Failure? {
      return Failed(r.error);
    }
    if !r.value.improved {
      return NotImproved;
    }
    var best := r.value.best;
    ghost var rs := Runs(run, Solvers(ParseMode(params).value));
    assert best == Sentinel || best in rs;
    var text := ConvertToFile(best.path, best.dropoffs, locs);
    a := Written(text);
  }
}
