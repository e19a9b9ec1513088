/**
 * The solver front end (Solver.java): its settings, the clause list it
 * collects, the DIMACS problem text it writes for minisat, and how it
 * turns minisat's reply into a SolverResult.
 *
 * Starting the minisat process and moving text through its streams are
 * not modelled: the text written to the process is returned, and the
 * lines the process prints are parameters.
 */
module Solvers {
  import opened Wrappers
  import opened Text
  import opened Variables
  import opened Clauses
  import opened SolverResults

  /** The executable used when the settings name none. */
  const DefaultExecutable: string := "minisat"

  /** The verbosity used when the settings name none. */
  const DefaultVerbosity: bool := false

  // ---------------------------------------------------------------------
  // Settings

  /** `Boolean.toString(b)`. */
  function BooleanText(b: bool): (s: string)
    ensures ParseBoolean(s) == b
  {
    if b then "true" else "false"
  }

  function LowerAscii(c: char): char
  {
    if 'A' <= c <= 'Z' then (c as int + 32) as char else c
  }

  /** `s` with its ASCII capitals in lower case. */
  function LowerText(s: string): (r: string)
    ensures |r| == |s|
  {
    seq(|s|, i requires 0 <= i < |s| => LowerAscii(s[i]))
  }

  /**
   * `Boolean.parseBoolean(s)`: true exactly for "true" in any mix of
   * upper and lower case. (No character outside ASCII changes case into
   * one of the letters of "true", so comparing ASCII case is exact.)
   */
  function ParseBoolean(s: string): (r: bool)
    ensures r <==> LowerText(s) == "true"
  {
    assert |s| == 4 ==> LowerText(s) == [LowerAscii(s[0]), LowerAscii(s[1]), LowerAscii(s[2]), LowerAscii(s[3])];
    |s| == 4 && LowerAscii(s[0]) == 't' && LowerAscii(s[1]) == 'r' &&
    LowerAscii(s[2]) == 'u' && LowerAscii(s[3]) == 'e'
  }

  /** Reading back what `Boolean.toString` wrote gives the same value; case does not matter, other words mean false. */
  lemma ParseBooleanRoundTrip(b: bool)
    ensures ParseBoolean(BooleanText(b)) == b
    ensures ParseBoolean("TRUE") && ParseBoolean("True")
    ensures !ParseBoolean("yes") && !ParseBoolean("1") && !ParseBoolean("") && !ParseBoolean("true ")
  {
  }

  /** `props.getProperty(key, fallback)`. */
  function Property(props: map<string, string>, key: string, fallback: string): (s: string)
    ensures key in props ==> s == props[key]
    ensures key !in props ==> s == fallback
  {
    if key in props then props[key] else fallback
  }

  // ---------------------------------------------------------------------
  // The problem text

  /**
   * `String.format("p cnf %d %d", varCount, clauseCount)` under a default
   * locale whose digits are the ASCII digits 0 to 9.
   */
  function Header(varCount: nat, clauseCount: nat): (h: string)
    ensures |h| > 6 && h[..6] == "p cnf "
    ensures NoNewline(h)
  {
    NatTextIsWord(varCount);
    NatTextIsWord(clauseCount);
    "p cnf " + NatText(varCount) + " " + NatText(clauseCount)
  }

  /** One DIMACS line per clause, in order. */
  function ClauseLines(lists: seq<seq<Variable>>): (lines: seq<string>)
    ensures |lines| == |lists|
  {
    seq(|lists|, k requires 0 <= k < |lists| => ClauseText(lists[k]))
  }

  /** Everything `solve()` writes to minisat: the header, then each clause, each line ended by a newline. */
  function ProblemText(varCount: nat, lists: seq<seq<Variable>>): (t: string)
    ensures var first := Header(varCount, |lists|) + "\n"; |first| <= |t| && t[..|first|] == first
  {
    TerminatedCons(Header(varCount, |lists|), ClauseLines(lists));
    Terminated([Header(varCount, |lists|)] + ClauseLines(lists))
  }

  lemma HeaderWords(varCount: nat, clauseCount: nat)
    ensures Header(varCount, clauseCount) ==
              "p" + " " + ("cnf" + " " + (NatText(varCount) + " " + NatText(clauseCount)))
  {
    assert "p cnf " == "p" + " " + "cnf" + " ";
  }

  lemma HeaderPieces(varCount: nat, clauseCount: nat)
    ensures Pieces(Header(varCount, clauseCount)) == ["p", "cnf", NatText(varCount), NatText(clauseCount)]
  {
    var v, c := NatText(varCount), NatText(clauseCount);
    NatTextIsWord(varCount);
    NatTextIsWord(clauseCount);
    var t3 := v + " " + c;
    var t2 := "cnf" + " " + t3;
    PiecesOfWord(c, "");
    PiecesOfWord(v, c);
    assert Pieces(t3) == [v, c];
    assert NoWhitespace("cnf") && NoWhitespace("p");
    PiecesOfWord("cnf", t3);
    assert Pieces(t2) == ["cnf", v, c];
    PiecesOfWord("p", t2);
    HeaderWords(varCount, clauseCount);
  }

  /** The header line splits into "p", "cnf" and the two counts, which read back as the counts. */
  lemma HeaderReadsBack(varCount: nat, clauseCount: nat)
    ensures SplitWhitespace(Header(varCount, clauseCount)) == ["p", "cnf", NatText(varCount), NatText(clauseCount)]
    ensures DigitsValue(NatText(varCount)) == varCount && DigitsValue(NatText(clauseCount)) == clauseCount
  {
    var line := Header(varCount, clauseCount);
    HeaderPieces(varCount, clauseCount);
    assert !NoWhitespace(line) by {
      assert IsWhitespace(line[1]);
    }
    NatTextRoundTrip(varCount);
    NatTextRoundTrip(clauseCount);
  }

  /** Read back line by line, the problem text is the header and then exactly one line per clause. */
  lemma ProblemTextLines(varCount: nat, lists: seq<seq<Variable>>)
    ensures Lines(ProblemText(varCount, lists)) == [Header(varCount, |lists|)] + ClauseLines(lists)
  {
    var lines := [Header(varCount, |lists|)] + ClauseLines(lists);
    forall i | 0 <= i < |lines|
      ensures NoNewline(lines[i])
    {
      if i == 0 {
        NatTextIsWord(varCount);
        NatTextIsWord(|lists|);
      } else {
        ClauseTextIsOneLine(lists[i - 1]);
      }
    }
    LinesOfTerminated(lines);
  }

  lemma ClauseLinesAppend(lists: seq<seq<Variable>>, clause: seq<Variable>)
    ensures ClauseLines(lists + [clause]) == ClauseLines(lists) + [ClauseText(clause)]
  {
  }

  /** Before any clause, only the header line has been written. */
  lemma WriteStart(header: string, cs: seq<Clause?>)
    ensures Filled(cs[..0])
    ensures Terminated([header] + ClauseLines(Contents(cs[..0]))) == header + "\n"
  {
    assert [header] + ClauseLines(Contents(cs[..0])) == [header];
    assert [header][..0] == [];
  }

  /** Writing clause `i` after clauses 0 .. i - 1 adds its line at the end. */
  lemma WriteStep(header: string, cs: seq<Clause?>, i: nat)
    requires i < |cs| && Filled(cs[..i]) && cs[i] != null
    ensures Filled(cs[..i + 1])
    ensures Terminated([header] + ClauseLines(Contents(cs[..i + 1]))) ==
              Terminated([header] + ClauseLines(Contents(cs[..i]))) + ClauseText(cs[i].variables) + "\n"
  {
    assert cs[..i + 1] == cs[..i] + [cs[i]];
    ContentsAppend(cs[..i], [cs[i]]);
    var before := Contents(cs[..i]);
    ClauseLinesAppend(before, cs[i].variables);
    assert Contents(cs[..i + 1]) == before + [cs[i].variables];
    var all := [header] + ClauseLines(before + [cs[i].variables]);
    assert all == ([header] + ClauseLines(before)) + [ClauseText(cs[i].variables)];
    assert all[..|all| - 1] == [header] + ClauseLines(before);
    assert all[|all| - 1] == ClauseText(cs[i].variables);
    assert Terminated(all) == Terminated(all[..|all| - 1]) + all[|all| - 1] + "\n";
  }

  /** Why `solve()` ends without a result. */
  datatype SolveError =
    | NullClause             // a null entry in the clause list (NullPointerException at toString)
    | NoVerdict              // minisat printed nothing (NullPointerException at the verdict test)
    | NoAssignment           // "SAT" without an assignment line (NullPointerException in addVariables)
    | Assignment(error: ParseError)  // the assignment line could not be read

  /** The solver object: its two settings and the clauses added so far. */
  class Solver {
    var executable: string
    var verbose: bool
    var clauses: seq<Clause?>

    /** `Solver(Properties props)`: settings from `props`, no clauses yet. */
    constructor (props: map<string, string>)
      ensures executable == Property(props, "solver.executable", DefaultExecutable)
      ensures verbose == ParseBoolean(Property(props, "verbose", BooleanText(DefaultVerbosity)))
      ensures clauses == []
    {
      clauses := [];
      new;
      LoadProperties(props);
    }

    /** `loadProperties(props)`: the executable name and the verbosity flag, with their defaults. */
    method LoadProperties(props: map<string, string>)
      modifies this`executable, this`verbose
      ensures executable == Property(props, "solver.executable", DefaultExecutable)
      ensures verbose == ParseBoolean(Property(props, "verbose", BooleanText(DefaultVerbosity)))
    {
      executable := Property(props, "solver.executable", DefaultExecutable);
      verbose := ParseBoolean(Property(props, "verbose", BooleanText(DefaultVerbosity)));
    }

    /** `addClause(c)`: appended at the end; the clause object itself is kept, not a copy. */
    method AddClause(c: Clause?)
      modifies this`clauses
      ensures clauses == old(clauses) + [c]
    {
      clauses := clauses + [c];
    }

    /** `addClauses(Collection cs)`: appended at the end, in order. */
    method AddClauses(cs: seq<Clause?>)
      modifies this`clauses
      ensures clauses == old(clauses) + cs
    {
      clauses := clauses + cs;
    }

    /** `addClauses(Clause[] cs)`: the array's entries appended at the end, in order. */
    method AddClauseArray(cs: array<Clause?>)
      modifies this`clauses
      ensures clauses == old(clauses) + cs[..]
    {
      AddClauses(cs[..]);
    }

    /**
     * The writing half of `solve()`: the header with the variable count and
     * the clause count, then each clause's `toString()`, each followed by a
     * newline. A null clause stops it.
     */
    method WriteProblem(varCount: nat) returns (text: Option<string>)
      ensures text.Some? <==> Filled(clauses)
      ensures text.Some? ==> text.value == ProblemText(varCount, Contents(clauses))
    {
      var header := Header(varCount, |clauses|);
      var sb := header + "\n";
      WriteStart(header, clauses);
      for i := 0 to |clauses|
        invariant Filled(clauses[..i])
        invariant sb == Terminated([header] + ClauseLines(Contents(clauses[..i])))
      {
        var c := clauses[i];
        if c == null {
          assert !Filled(clauses);
          return None;
        }
        var line := c.ToString();
        WriteStep(header, clauses, i);
        sb := sb + line + "\n";
      }
      assert clauses[..|clauses|] == clauses;
      text := Some(sb);
    }

    /**
     * `solve()`, given what minisat prints: `stdout` are the lines of its
     * standard output and `stderr` those of its error stream. Returns the
     * problem text written to minisat (when one was written) and the
     * result of reading the reply.
     */
    method Solve(registry: Registry, stdout: seq<string>, stderr: seq<string>)
      returns (input: Option<string>, outcome: Result<SolverResult, SolveError>)
      requires registry.Valid()
      modifies registry`results
      ensures registry.Valid()
      ensures input.Some? <==> Filled(clauses)
      ensures input.Some? ==> input.value == ProblemText(registry.NumberOfVariables(), Contents(clauses))
      ensures input.None? ==> outcome == Failure(NullClause) && registry.results == old(registry.results)
      ensures input.Some? ==> Replied(old(registry.results), registry, stdout, stderr, outcome)
      ensures outcome.Success? ==> fresh(outcome.value)
    {
      var varCount := registry.NumberOfVariables();
      input := WriteProblem(varCount);
      if input.None? {
        return input, Failure(NullClause);
      }
      outcome := ReadReply(registry, stdout, stderr);
    }
  }

  /**
   * What reading minisat's reply leaves behind, starting from the stored
   * results `before`. The verdict is satisfiable exactly when the first
   * line is "SAT"; then the second line is read into the registry, and
   * values read before a bad token stay recorded; otherwise nothing is
   * recorded. A successful result carries every line of `stderr` as a
   * statistics line.
   */
  ghost predicate Replied(before: map<nat, bool>, registry: Registry, stdout: seq<string>, stderr: seq<string>,
                          outcome: Result<SolverResult, SolveError>)
    reads registry, if outcome.Success? then {outcome.value} else {}
  {
    && (stdout == [] ==> outcome == Failure(NoVerdict))
    && (stdout != [] && stdout[0] == "SAT" && |stdout| == 1 ==> outcome == Failure(NoAssignment))
    && (stdout != [] && stdout[0] != "SAT" ==> outcome.Success?)
    && (|stdout| >= 2 && stdout[0] == "SAT" ==>
          var scan := Decode(SplitWhitespace(stdout[1]));
          && registry.results == Record(before, registry.variables.Keys, scan.entries)
          && (scan.error.Some? ==> outcome == Failure(Assignment(scan.error.value)))
          && (scan.error.None? ==> outcome.Success?))
    && (!(|stdout| >= 2 && stdout[0] == "SAT") ==> registry.results == before)
    && (outcome.Success? ==>
          && stdout != []
          && outcome.value.satisfiable == (stdout[0] == "SAT")
          && outcome.value.statistics == stderr)
  }

  /** The reading half of `solve()`: the verdict test, the assignment line, and the error-stream loop. */
  method ReadReply(registry: Registry, stdout: seq<string>, stderr: seq<string>)
    returns (outcome: Result<SolverResult, SolveError>)
    requires registry.Valid()
    modifies registry`results
    ensures registry.Valid()
    ensures outcome.Success? ==> fresh(outcome.value)
    ensures Replied(old(registry.results), registry, stdout, stderr, outcome)
  {
    if stdout == [] {
      return Failure(NoVerdict);
    }
    var satisfiable := false;
    if stdout[0] == "SAT" {
      satisfiable := true;
    }
    var result := new SolverResult(satisfiable);
    if satisfiable {
      if |stdout| < 2 {
        return Failure(NoAssignment);
      }
      var error := result.AddVariables(stdout[1], registry);
      if error.Some? {
        return Failure(Assignment(error.value));
      }
    }
    ghost var recorded := registry.results;
    for i := 0 to |stderr|
      invariant result.statistics == stderr[..i]
      invariant registry.results == recorded
    {
      result.AddStatisticsLine(stderr[i]);
    }
    assert stderr[..|stderr|] == stderr;
    outcome := Success(result);
  }

  // ---------------------------------------------------------------------
  // The example problem of `main`

  /**
   * The clauses `main` builds: `left` equivalent to the OR of `vars`,
   * exactly one of `vars`, and the unit clause "not left".
   */
  function ExampleCnf(left: Variable, vars: seq<Variable>): (cnf: seq<seq<Variable>>)
    ensures |cnf| == |vars| + 1 + |vars| * (|vars| - 1) / 2 + 1 + 1
  {
    OnlyOneCount(vars);
    EquivalenceCnf(left, vars) + OnlyOneCnf(vars) + [[Not(left)]]
  }

  /**
   * The example has no model: "not left" and the equivalence force every
   * var false, but exactly one of them must be true (with no vars, the
   * exactly-one part is the empty clause on its own).
   */
  lemma ExampleUnsatisfiable(a: Assignment, left: Variable, vars: seq<Variable>)
    ensures !SatisfiesAll(a, ExampleCnf(left, vars))
  {
    var e, o := EquivalenceCnf(left, vars), OnlyOneCnf(vars);
    SatisfiesAllAppend(a, e + o, [[Not(left)]]);
    SatisfiesAllAppend(a, e, o);
    EquivalenceMeaning(a, left, vars);
    OnlyOneMeaning(a, vars);
    assert SatisfiesAll(a, [[Not(left)]]) ==> !Value(a, left) by {
      assert [[Not(left)]][0] == [Not(left)];
    }
  }

  /** The five variables `main` asks for after `left`, on a fresh registry. */
  function ExampleVars(): (vs: seq<Variable>)
    ensures |vs| == 5
  {
    [Variable(2, false), Variable(3, false), Variable(4, false), Variable(5, false), Variable(6, false)]
  }

  lemma ExampleVarsAre(vs: seq<Variable>)
    requires |vs| == 5 && forall k :: 0 <= k < 5 ==> vs[k] == Variable(k + 2, false)
    ensures vs == ExampleVars()
  {
  }

  /** The first part of `main`: a fresh registry hands out `left` and then five more variables. */
  method ExampleVariables() returns (registry: Registry, left: Variable, vars: seq<Variable>)
    ensures fresh(registry) && registry.Valid()
    ensures left == Variable(1, false)
    ensures |vars| == 5 && forall k :: 0 <= k < 5 ==> vars[k] == Variable(k + 2, false)
    ensures vars == ExampleVars()
    ensures registry.NumberOfVariables() == 6
  {
    registry := new Registry();
    left := registry.GetVariable();
    vars := [];
    for i := 0 to 5
      invariant registry.Valid() && registry.next == i + 2 && |vars| == i
      invariant forall k :: 0 <= k < i ==> vars[k] == Variable(k + 2, false)
    {
      var v := registry.GetVariable();
      vars := vars + [v];
    }
    ExampleVarsAre(vars);
  }

  /** The clauses `main` builds from `left` and `vars`, each encoder's result kept apart. */
  method ExampleClauses(left: Variable, vars: seq<Variable>) returns (equivalence: array<Clause?>, onlyOne: array<Clause?>, last: Clause)
    ensures Filled(equivalence[..]) && Contents(equivalence[..]) == EquivalenceCnf(left, vars)
    ensures Filled(onlyOne[..]) && Contents(onlyOne[..]) == OnlyOneCnf(vars)
    ensures last.variables == [Not(left)]
  {
    equivalence := Equivalence(left, vars);
    ghost var e := Contents(equivalence[..]);
    onlyOne := OnlyOne(vars);
    last := new Clause([Not(left)]);
    assert Contents(equivalence[..]) == e;
  }

  /** The clause-adding part of `main`: a solver with default settings, given the three groups in order. */
  method ExampleSolver(equivalence: array<Clause?>, onlyOne: array<Clause?>, last: Clause) returns (solver: Solver)
    requires Filled(equivalence[..]) && Filled(onlyOne[..])
    ensures fresh(solver)
    ensures Filled(solver.clauses)
    ensures Contents(solver.clauses) == Contents(equivalence[..]) + Contents(onlyOne[..]) + [last.variables]
  {
    solver := new Solver(map[]);
    solver.AddClauseArray(equivalence);
    solver.AddClauseArray(onlyOne);
    solver.AddClause(last);
    assert solver.clauses == equivalence[..] + onlyOne[..] + [last];
    ContentsAppend(equivalence[..], onlyOne[..]);
    ContentsAppend(equivalence[..] + onlyOne[..], [last]);
  }

  /**
   * `main`, up to starting minisat: the problem text announces 6
   * variables and 18 clauses and then lists the clauses, and no
   * assignment satisfies them, so minisat can only answer UNSAT.
   */
  method Example() returns (text: string, cnf: seq<seq<Variable>>)
    ensures Lines(text) == [Header(6, 18)] + ClauseLines(cnf)
    ensures |cnf| == 18
    ensures cnf == ExampleCnf(Variable(1, false), ExampleVars())
    ensures forall a: Assignment :: !SatisfiesAll(a, cnf)
  {
    var registry, left, vars := ExampleVariables();
    var equivalence, onlyOne, last := ExampleClauses(left, vars);
    ghost var e, o := Contents(equivalence[..]), Contents(onlyOne[..]);
    var solver := ExampleSolver(equivalence, onlyOne, last);
    assert Contents(equivalence[..]) == e && Contents(onlyOne[..]) == o;
    assert Contents(solver.clauses) == ExampleCnf(left, vars);
    var written := solver.WriteProblem(registry.NumberOfVariables());
    cnf := Contents(solver.clauses);
    assert |cnf| == 18 by {
      assert |vars| * (|vars| - 1) / 2 == 10;
    }
    text := written.value;
    assert text == ProblemText(6, cnf);
    forall a: Assignment
      ensures !SatisfiesAll(a, cnf)
    {
      ExampleUnsatisfiable(a, left, vars);
    }
    ProblemTextLines(6, cnf);
  }
}
