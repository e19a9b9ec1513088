# minisat4j, modelled in Dafny

minisat4j is a small Java bridge to the external SAT solver minisat. A caller
asks it for Boolean decision variables and builds disjunctive clauses over
them. It can also use two ready-made encoders: "left is equivalent to the OR
of right" and "exactly one of these variables is true". The solver object
collects the clauses, writes them to minisat as DIMACS CNF text, and reads
minisat's reply back. The reply is a verdict line, an assignment line when
the verdict is SAT, and diagnostic lines on the error stream. The assignment
is stored back onto the variables.

This project models the non-I/O logic of those classes:

- `variable.dfy` (module `Variables`) models the variable registry. The
  source keeps a counter and two maps in static fields. Here they are the
  fields of a `Registry` object. A variable is a value `Variable(number,
  negative)` with a text form and negation.
- `clause.dfy` (module `Clauses`) models clause objects and their DIMACS
  line. It also has the two encoders `Equivalence` and `OnlyOne`, which fill
  arrays of fresh clause objects with loops, as the source does. What the
  encoders produce is specified by the functions `EquivalenceCnf` and
  `OnlyOneCnf`. Their meaning under every truth assignment is proved.
- `solver_result.dfy` (module `SolverResults`) models the result object and
  the parser for the assignment line. Java's `split("\\s")`, the first match
  of `(-?)(\d+)` and `Integer.parseInt` are written out. The token loop is
  proved against `Decode`, a recursive specification of where reading stops
  and why.
- `solver.dfy` (module `Solvers`) models the solver object: its settings,
  the clause list, the problem text it writes, and how it reads the reply.
  The lines minisat prints are parameters. The problem text written to
  minisat is a result. It also holds the example problem of `Solver.main`.
  That problem announces 6 variables and 18 clauses, and no assignment
  satisfies it.
- `text.dfy` (module `Text`) holds what the others share: decimal numerals,
  Java's `\s` and `\d` classes, and newline-terminated lines.
  `wrappers.dfy` holds `Option` and `Result`.

Some failures of the source are modelled as error values. When
`addVariables` throws on the assignment line, the model's `AddVariables`
returns a `ParseError`. Three null dereferences in `solve()` become
`SolveError` values in the model's `Solve`: a null clause in the list, a
missing verdict line, and a missing assignment line. Values already stored
before an error stay stored, as in the source. Other failures of the source
are not modelled; "## Left out" lists them.

## Model

| member | source | states |
|---|---|---|
| Text.NatText | com/github/musikk/minisat4j/Variable.java:188 | the decimal text of a number is non-empty and made of digits only |
| Text.NatTextRoundTrip | com/github/musikk/minisat4j/Variable.java:188 | the decimal text of a number reads back as that number |
| Text.NatTextIsZero | com/github/musikk/minisat4j/Variable.java:188 | only the number 0 is written "0", so no registered variable's text is the terminator |
| Text.LinesOfTerminated | com/github/musikk/minisat4j/Solver.java:157-168 | text written line by line, each followed by a newline, reads back as the same lines in order |
| Variables.Not | com/github/musikk/minisat4j/Variable.java:125-136 | the negated view has the same number and the opposite sign |
| Variables.VariableText | com/github/musikk/minisat4j/Variable.java:186-189 | a hyphen and then the number for a negated variable, the number alone otherwise; no whitespace and no line break |
| Variables.DoubleNegation | com/github/musikk/minisat4j/Variable.java:125-136 | negating twice gives back the same variable and the same text |
| Variables.VariableTextInjective | com/github/musikk/minisat4j/Variable.java:186-189 | two variables with the same text are the same variable |
| Variables.Registry.constructor | com/github/musikk/minisat4j/Variable.java:70-74 | the counter starts at 1 and both maps are empty |
| Variables.Registry.GetVariable | com/github/musikk/minisat4j/Variable.java:81-86 | returns the positive variable numbered by the counter; that number was free before; it is registered and earlier registrations are kept; the counter goes up by one; results are untouched; the registry invariant holds |
| Variables.Registry.NumberOfVariables | com/github/musikk/minisat4j/Variable.java:116-118 | the count equals the number of registered variables, and the registered numbers are exactly 1 to the count |
| Variables.Registry.SetResult | com/github/musikk/minisat4j/Variable.java:176-179 | stores the value under a registered number, overwriting an earlier one; for an unregistered number no result changes |
| Variables.Registry.GetResult | com/github/musikk/minisat4j/Variable.java:146-165 | succeeds exactly for a positive variable whose number has a stored result, and returns that value; otherwise fails with "not yet available" |
| Variables.FirstThreeVariables | com/github/musikk/minisat4j/Variable.java:81-86 | a fresh registry hands out 1, 2, 3 and then counts 3 |
| Variables.OverwriteResult | com/github/musikk/minisat4j/Variable.java:158-179 | before any result the lookup fails; a later result overwrites an earlier one; the negated view finds nothing |
| Clauses.Clause.Empty | com/github/musikk/minisat4j/Clause.java:51-53 | the new clause holds no variable |
| Clauses.Clause.constructor | com/github/musikk/minisat4j/Clause.java:61-66 | the new clause holds exactly the given variables, in order |
| Clauses.Clause.AddVariable | com/github/musikk/minisat4j/Clause.java:74-76 | one variable more at the end; the others are unchanged |
| Clauses.Clause.ToString | com/github/musikk/minisat4j/Clause.java:84-92 | the loop's string is each variable's text and a space, then "0" |
| Clauses.ClauseText | com/github/musikk/minisat4j/Clause.java:84-92 | a clause line ends with the terminator "0", and the empty clause is just "0" |
| Clauses.ClauseTextIsOneLine | com/github/musikk/minisat4j/Clause.java:84-92 | a clause line holds no line break and ends with "0"; the empty clause is "0" |
| Clauses.EquivalenceCnf | com/github/musikk/minisat4j/Clause.java:108-109 | the equivalence has one clause more than `right` has variables |
| Clauses.EquivalenceMeaning | com/github/musikk/minisat4j/Clause.java:106-118 | under every assignment the clauses all hold exactly when left is equivalent to the OR of right |
| Clauses.Equivalence | com/github/musikk/minisat4j/Clause.java:106-118 | a fresh array of N+1 filled slots: slot 0 is right followed by not-left, and slot i is not-right[i-1] and left; every slot holds a fresh clause object, and no two slots hold the same object |
| Clauses.Row | com/github/musikk/minisat4j/Clause.java:137-140 | row i has one pair clause for each later variable |
| Clauses.PairsUpToLength | com/github/musikk/minisat4j/Clause.java:134-141 | rows 0 to i-1 hold i(2n-i-1)/2 pair clauses |
| Clauses.OnlyOneCnf | com/github/musikk/minisat4j/Clause.java:134-143 | the last clause is all of vars in order, and every clause before it is a pair clause of two variables |
| Clauses.OnlyOneCount | com/github/musikk/minisat4j/Clause.java:131 | n(n-1)/2 pair clauses and one more clause |
| Clauses.RowMeaning | com/github/musikk/minisat4j/Clause.java:137-140 | row p holds exactly when vars[p] is not true together with a later variable |
| Clauses.PairsUpToMeaning | com/github/musikk/minisat4j/Clause.java:134-141 | rows 0 to i-1 hold exactly when no pair starting before i has both variables true |
| Clauses.OnlyOneMeaning | com/github/musikk/minisat4j/Clause.java:129-147 | under every assignment the clauses all hold exactly when exactly one of vars is true |
| Clauses.OnlyOneOfNone | com/github/musikk/minisat4j/Clause.java:143 | with no variables the only clause is empty, so the clauses never hold |
| Clauses.OnlyOne | com/github/musikk/minisat4j/Clause.java:129-147 | a fresh array of n(n-1)/2+1 filled slots, holding the pair clauses in row-major order and then vars itself in the last slot; every slot holds a fresh clause object, and no two slots hold the same object |
| Clauses.FillPairs | com/github/musikk/minisat4j/Clause.java:134-141 | the nested loops fill the first n(n-1)/2 slots with fresh, pairwise distinct clause objects holding the pair clauses in row-major order, and leave the slots after them, the last slot among them, as they were |
| Clauses.FillRow | com/github/musikk/minisat4j/Clause.java:137-140 | the inner loop fills the next n-i-1 slots with fresh, pairwise distinct clause objects holding row i, and leaves every other slot as it was |
| Clauses.SatisfiesAllAppend | com/github/musikk/minisat4j/Solver.java:258-260 | clause lists added one after the other hold exactly when each list holds |
| SolverResults.SplitWhitespace | com/github/musikk/minisat4j/SolverResult.java:116 | no token holds whitespace; a line without whitespace is one token; otherwise the tokens are the pieces between single whitespace characters up to the last non-empty one, and only empty pieces are dropped |
| SolverResults.PiecesInterleave | com/github/musikk/minisat4j/SolverResult.java:116 | there is one piece more than there are whitespace characters, and putting the pieces back with those characters between them gives the line back |
| SolverResults.PiecesAfterWord | com/github/musikk/minisat4j/SolverResult.java:116 | a word followed by one whitespace character is the first piece, and the rest is split on its own |
| SolverResults.PiecesNonEmpty | com/github/musikk/minisat4j/SolverResult.java:116 | a line with a character other than whitespace has a non-empty piece, so `split` keeps every piece before it |
| SolverResults.BlankLine | com/github/musikk/minisat4j/SolverResult.java:116-134 | a single space splits into no tokens, and reading it ends with "unexpected end of input" |
| SolverResults.DoubleWhitespaceMalformed | com/github/musikk/minisat4j/SolverResult.java:116-126 | two whitespace characters in a row after a readable token, before more text, make reading record that token and then stop with "malformed result" for the empty token |
| SolverResults.DoubleSpaceExample | com/github/musikk/minisat4j/SolverResult.java:116-126 | "1  0" (two spaces) records 1 as true and then stops with "malformed result" |
| SolverResults.SplitClauseText | com/github/musikk/minisat4j/SolverResult.java:116 | splitting a line in clause shape gives each variable's text and then "0" |
| SolverResults.ParseToken | com/github/musikk/minisat4j/SolverResult.java:117-131 | a token fails only as malformed or as an out-of-range number; a read number is at most 2147483647 |
| SolverResults.ParseTokenMalformed | com/github/musikk/minisat4j/SolverResult.java:122-126 | a token is malformed exactly when it holds no digit; the empty token is malformed |
| SolverResults.FirstDigitAfter | com/github/musikk/minisat4j/SolverResult.java:117-122 | after a digit-free prefix, the first digit is where the digit run starts |
| SolverResults.DigitRunOf | com/github/musikk/minisat4j/SolverResult.java:117 | the greedy digit run takes all of a run of digits and stops at the first non-digit after it |
| SolverResults.FirstMatch | com/github/musikk/minisat4j/SolverResult.java:117-131 | for a digit-free prefix, a digit run and a rest that does not start with a digit, the number is the run, the value is false exactly when a hyphen stands right before the run, and a run above 2147483647 is a number-format failure |
| SolverResults.FirstMatchHyphen | com/github/musikk/minisat4j/SolverResult.java:117-131 | "x-12y" reads as 12 with value false |
| SolverResults.FirstMatchApart | com/github/musikk/minisat4j/SolverResult.java:117-131 | "-x12" reads as 12 with value true, since the hyphen is not next to the digits |
| SolverResults.ParseVariableText | com/github/musikk/minisat4j/SolverResult.java:127-132 | a variable's text is not "0" and reads back as its number, with value true exactly for the positive form |
| SolverResults.Decode | com/github/musikk/minisat4j/SolverResult.java:118-134 | reading a token list never records more entries than there are tokens |
| SolverResults.DecodeFrom | com/github/musikk/minisat4j/SolverResult.java:118-134 | reading from token i never records more entries than there are tokens left |
| SolverResults.DecodeFromReads | com/github/musikk/minisat4j/SolverResult.java:118-132 | each entry recorded from token i on comes from a readable token other than "0", in order |
| SolverResults.DecodeFromHalts | com/github/musikk/minisat4j/SolverResult.java:118-134 | the token where reading stops decides how it ended |
| SolverResults.DecodeStops | com/github/musikk/minisat4j/SolverResult.java:115-135 | tokens before the stopping point are recorded in order; success happens at a "0" token; a parse error comes from the token that caused it; end of input happens exactly when every token was read |
| SolverResults.UnexpectedEndMeansNoTerminator | com/github/musikk/minisat4j/SolverResult.java:119-134 | "unexpected end of input" happens exactly when no token is "0" and every token is readable |
| SolverResults.DecodeResume | com/github/musikk/minisat4j/SolverResult.java:118-134 | what the current token alone decides about the outcome of the whole loop |
| SolverResults.Record | com/github/musikk/minisat4j/SolverResult.java:132 | after storing the entries, a number has a result exactly when it had one before or it is registered and some entry mentions it; unregistered numbers keep their old result |
| SolverResults.RecordSnoc | com/github/musikk/minisat4j/SolverResult.java:132 | storing one more entry changes only that entry's number, and only when it is registered |
| SolverResults.RecordDistinct | com/github/musikk/minisat4j/SolverResult.java:132 | with distinct numbers, every registered entry's value is stored, and numbers not mentioned keep their old result |
| SolverResults.DecodeClauseText | com/github/musikk/minisat4j/SolverResult.java:115-135 | a line in clause shape reads back as one entry per variable, in order, and ends normally |
| SolverResults.DecodeExample | com/github/musikk/minisat4j/SolverResult.java:115-135 | "1 -2 3 0" records 1 true, 2 false, 3 true and ends normally |
| SolverResults.SolverResult.constructor | com/github/musikk/minisat4j/SolverResult.java:59-62 | the verdict is the one given, and there are no statistics |
| SolverResults.SolverResult.IsSatisfiable | com/github/musikk/minisat4j/SolverResult.java:103-105 | always the verdict given to the constructor |
| SolverResults.SolverResult.AddStatisticsLine | com/github/musikk/minisat4j/SolverResult.java:70-72 | the line is appended at the end |
| SolverResults.SolverResult.GetStatistics | com/github/musikk/minisat4j/SolverResult.java:79-81 | the lines added so far, in order |
| SolverResults.SolverResult.ToString | com/github/musikk/minisat4j/SolverResult.java:88-96 | each statistics line followed by a newline; "" when there are none |
| SolverResults.SolverResult.AddVariables | com/github/musikk/minisat4j/SolverResult.java:115-135 | the error is the one `Decode` gives for the split line; the results are the old results with every decoded entry stored in order; the registry stays valid |
| SolverResults.SolverResult.RecordTokens | com/github/musikk/minisat4j/SolverResult.java:118-134 | the loop returns at "0", fails at the first unreadable token or at the end, and stores exactly the entries `Decode` records |
| Solvers.BooleanText | com/github/musikk/minisat4j/Solver.java:125-126 | the text of a boolean parses back as that boolean |
| Solvers.ParseBoolean | com/github/musikk/minisat4j/Solver.java:125-126 | true exactly when the text is "true" once its ASCII capitals are made lower case |
| Solvers.ParseBooleanRoundTrip | com/github/musikk/minisat4j/Solver.java:125-126 | parsing the text of a boolean gives it back; case is ignored; any other word means false |
| Solvers.Property | com/github/musikk/minisat4j/Solver.java:123-126 | the value stored under the key, or the fallback when there is none |
| Solvers.Solver.constructor | com/github/musikk/minisat4j/Solver.java:111-114 | settings come from the properties with their defaults, and there are no clauses |
| Solvers.Solver.LoadProperties | com/github/musikk/minisat4j/Solver.java:122-127 | the executable defaults to "minisat" and verbosity to false when the keys are absent |
| Solvers.Solver.AddClause | com/github/musikk/minisat4j/Solver.java:214-216 | exactly that clause is appended at the end |
| Solvers.Solver.AddClauses | com/github/musikk/minisat4j/Solver.java:234-236 | the given clauses are appended in order; earlier ones are unchanged |
| Solvers.Solver.AddClauseArray | com/github/musikk/minisat4j/Solver.java:224-226 | the array's entries are appended in order; earlier ones are unchanged |
| Solvers.Header | com/github/musikk/minisat4j/Solver.java:150-152 | the header starts with "p cnf " and is one line |
| Solvers.ProblemText | com/github/musikk/minisat4j/Solver.java:150-168 | the problem text starts with the header line and its newline |
| Solvers.HeaderReadsBack | com/github/musikk/minisat4j/Solver.java:150-152 | the header splits into "p", "cnf" and the two counts, and the counts read back |
| Solvers.ProblemTextLines | com/github/musikk/minisat4j/Solver.java:150-168 | read back line by line, the problem text is the header and then one line per clause in order |
| Solvers.WriteStep | com/github/musikk/minisat4j/Solver.java:160-168 | writing the next clause adds its line and a newline at the end |
| Solvers.Solver.WriteProblem | com/github/musikk/minisat4j/Solver.java:150-168 | text is produced exactly when no clause is null, and it is the header with the counts followed by each clause line, each with a newline |
| Solvers.ReadReply | com/github/musikk/minisat4j/Solver.java:178-199 | any first line other than "SAT" gives a fresh result with verdict false; "SAT" gives verdict true, and then the assignment line is read; nothing is stored otherwise; every result carries the error-stream lines as statistics, in order; a missing line is an error |
| Solvers.Solver.Solve | com/github/musikk/minisat4j/Solver.java:136-206 | writes the problem for the registry's variable count and the clause list, then reads the reply as `ReadReply` does and returns a fresh result; a null clause ends it before any result is stored |
| Solvers.ExampleCnf | com/github/musikk/minisat4j/Solver.java:258-260 | the example has N+1, n(n-1)/2+1 and 1 clauses from its three parts |
| Solvers.ExampleUnsatisfiable | com/github/musikk/minisat4j/Solver.java:258-260 | for any left and any vars, no assignment satisfies the example clauses |
| Solvers.ExampleVariables | com/github/musikk/minisat4j/Solver.java:251-256 | a fresh registry hands out left = 1 and vars = 2 to 6, and counts 6 |
| Solvers.ExampleClauses | com/github/musikk/minisat4j/Solver.java:258-260 | the three groups of clauses `main` adds, each as the encoders specify |
| Solvers.ExampleSolver | com/github/musikk/minisat4j/Solver.java:249-260 | the solver's clauses are the three groups, in the order added |
| Solvers.Example | com/github/musikk/minisat4j/Solver.java:244-262 | the problem text is "p cnf 6 18" followed by the lines of the 18 clauses, which are the example clauses for left = 1 and vars = 2 to 6; no assignment satisfies them |

## Left out

- Starting the minisat process and wiring its three streams (`Runtime.exec`, the buffered writers and readers, flush and close) are I/O. In the model, what minisat prints is given as two sequences of lines, and the problem text is returned instead of written.
- The `IOException` handler in `solve()`, which prints a stack trace and returns null, is not modelled. No I/O happens in the model, so nothing can raise it.
- The verbose echo of each line and the "calculating ..." message on the error stream are logging only.
- The timer (`Timer.java`) reads the wall clock, and `solve()` never uses what it measures. It is not part of this model.
- The no-argument `Solver()` constructor only reads the configuration file and then calls `loadProperties`, so it is not modelled. The constructor that takes the properties is modelled.
- The two `main` methods appear only as scenarios. In `Solvers.Example`, the settings are an empty property map rather than the `solver.cfg` file, and printing the results is left out. `Clause.main` only prints the equivalence clauses for five variables, which `Clauses.Equivalence` covers.
- `BufferedWriter.newLine` is modelled as "\n". `readLine` is modelled as splitting at "\n" only. A "\r" line ending is not modelled.
- Variables.Registry.GetResult: results are keyed by number and found only through a positive variable. In the source, a negated view is a distinct object and finds nothing, which the model keeps. A double negation `v.not().not()` is also a distinct object in the source, so its lookup fails. In the model it equals `v` and finds `v`'s result.
- Variables.Registry.GetVariable: the counter is an unbounded natural number. Java's `int` counter wrapping after 2147483647 variables is not modelled.
- Variables.Registry.SetResult: a number that was never handed out is filed under a null key in the source. No lookup reaches that key, so the model leaves the results unchanged.
- Solvers.ReadReply: the source follows null references when there is no verdict line and when there is no assignment line after "SAT". The model reports them as the `SolveError` values `NoVerdict` and `NoAssignment`.
- Solvers.Solver.Solve: a null clause in the list makes the source's writing loop throw when it calls `toString` on it (Solver.java:160-161). The model reports it as the `SolveError` value `NullClause`, before any reply is read.
- Solvers.ReadReply: the verdict is satisfiable only for the exact line "SAT". Any other first line counts as not satisfiable, whether it is "UNSAT" or something else. A reader that rejects lines other than "SAT" and "UNSAT" as a protocol error is not modelled, because the code does not do that.
- SolverResults.SolverResult.RecordTokens: on a line without a "0" token whose tokens all hold a digit, the code stores every token and then raises "unexpected end of input". When some token holds no digit, it raises "malformed result" at the first such token, after storing the tokens before it. The model keeps this. It does not model a reader that rejects such a line before storing anything.
- Clauses.OnlyOne: the clause count n(n-1)/2+1 is computed here on unbounded integers. The source computes it in Java `int`, which overflows for 46342 or more variables. The source then fails with a negative array size or an out-of-bounds write, and the model instead returns the full array.
- Clauses.Equivalence: null arguments are not modelled, because variables are values in the model and cannot be null. In the source, the `Clause` constructor throws only for a null array, and `addVariable` stores a null variable without complaint; `toString` then writes it as "null". The encoders throw for a null list or array, whose size they read first. Otherwise they throw only where they negate a null variable: `equivalence` for a null `left` or a null entry of `right`, and `onlyOne` for a null entry among two or more variables. `onlyOne` with a single null variable returns one clause holding it.
- Solvers.Header: the counts are written with the ASCII digits 0 to 9. `String.format` writes `%d` with the digits of the default locale, which differ under a locale such as th-TH-u-nu-thai; the model assumes a locale with ASCII digits, and so do `Solvers.ProblemText`, `Solvers.Solver.WriteProblem`, `Solvers.Solver.Solve` and `Solvers.Example`, which use the header.
- Solvers.Solver.WriteProblem: the clause count in the header is unbounded. Java's `int` limit on the list size is not modelled.
