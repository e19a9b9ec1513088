/**
 * Clauses, their DIMACS rendering, and the two CNF encoders (Clause.java).
 *
 * A clause is an ordered list of variables read as their disjunction. The
 * encoders return arrays of freshly built clauses; what the clauses say is
 * given by the value-level functions EquivalenceCnf and OnlyOneCnf, whose
 * meaning under every truth assignment is proved below.
 */
module Clauses {
  import opened Text
  import opened Variables

  /** Each variable's text followed by one space. */
  function ClauseBody(vs: seq<Variable>): string
  {
    if vs == [] then "" else VariableText(vs[0]) + " " + ClauseBody(vs[1..])
  }

  /** `Clause.toString()`: the DIMACS clause line, without its line break. */
  function ClauseText(vs: seq<Variable>): (s: string)
    ensures |s| >= 1 && s[|s| - 1] == '0'
    ensures vs == [] ==> s == "0"
  {
    ClauseBody(vs) + "0"
  }

  lemma {:induction false} ClauseBodyAppend(vs: seq<Variable>, v: Variable)
    ensures ClauseBody(vs + [v]) == ClauseBody(vs) + VariableText(v) + " "
    decreases |vs|
  {
    if vs != [] {
      var head, tail := VariableText(vs[0]) + " ", VariableText(v) + " ";
      assert (vs + [v])[0] == vs[0] && (vs + [v])[1..] == vs[1..] + [v];
      ClauseBodyAppend(vs[1..], v);
      calc {
        ClauseBody(vs + [v]);
        head + ClauseBody(vs[1..] + [v]);
        head + (ClauseBody(vs[1..]) + tail);
        (head + ClauseBody(vs[1..])) + tail;
      }
    } else {
      assert vs + [v] == [v] && [v][1..] == [];
      assert ClauseBody([v]) == VariableText(v) + " " + ClauseBody([]);
    }
  }

  /** A clause line is one line: it holds no line break, and it ends with the terminator "0". */
  lemma {:induction false} ClauseTextIsOneLine(vs: seq<Variable>)
    ensures NoNewline(ClauseText(vs))
    ensures ClauseText(vs)[|ClauseText(vs)| - 1] == '0'
    ensures vs == [] ==> ClauseText(vs) == "0"
    decreases |vs|
  {
    if vs != [] {
      ClauseTextIsOneLine(vs[1..]);
      var t := VariableText(vs[0]);
      assert ClauseText(vs) == t + " " + ClauseText(vs[1..]);
    }
  }

  /** A clause object: its `variables` list is filled by the constructor and by AddVariable. */
  class Clause {
    var variables: seq<Variable>

    /** `Clause()`: the empty clause. */
    constructor Empty()
      ensures variables == []
    {
      variables := [];
    }

    /** `Clause(Variable... vars)`: exactly `vars`, in the given order. */
    constructor (vars: seq<Variable>)
      ensures variables == vars
    {
      variables := [];
      new;
      for k := 0 to |vars|
        invariant variables == vars[..k]
      {
        variables := variables + [vars[k]];
      }
    }

    /** `addVariable(var)`: one more variable at the end; the others are unchanged. */
    method AddVariable(v: Variable)
      modifies this
      ensures variables == old(variables) + [v]
    {
      variables := variables + [v];
    }

    /** `toString()`, built by appending each variable's text and a space, then "0". */
    method ToString() returns (s: string)
      ensures s == ClauseText(variables)
    {
      s := "";
      for i := 0 to |variables|
        invariant s == ClauseBody(variables[..i])
      {
        assert variables[..i + 1] == variables[..i] + [variables[i]];
        ClauseBodyAppend(variables[..i], variables[i]);
        s := s + VariableText(variables[i]) + " ";
      }
      assert variables[..|variables|] == variables;
      s := s + "0";
    }
  }

  /** Every slot of an array of clauses has been filled. */
  ghost predicate Filled(cs: seq<Clause?>)
  {
    forall k :: 0 <= k < |cs| ==> cs[k] != null
  }

  /** The variable lists of a sequence of clause objects, in order. */
  function Contents(cs: seq<Clause?>): (r: seq<seq<Variable>>)
    requires Filled(cs)
    reads cs
    ensures |r| == |cs|
    ensures forall k :: 0 <= k < |cs| ==> r[k] == cs[k].variables
  {
    seq(|cs|, k requires 0 <= k < |cs| reads cs => cs[k].variables)
  }

  lemma ContentsAppend(x: seq<Clause?>, y: seq<Clause?>)
    requires Filled(x) && Filled(y)
    ensures Filled(x + y)
    ensures Contents(x + y) == Contents(x) + Contents(y)
  {
  }

  // ---------------------------------------------------------------------
  // Meaning of clauses under a truth assignment

  /** A truth value for every variable number. */
  type Assignment = nat -> bool

  /** The truth of a variable under `a`: negated forms flip the value of their number. */
  function Value(a: Assignment, v: Variable): bool
  {
    if v.negative then !a(v.number) else a(v.number)
  }

  /** A clause holds when one of its variables is true; the empty clause never holds. */
  predicate Satisfies(a: Assignment, clause: seq<Variable>)
  {
    exists k :: 0 <= k < |clause| && Value(a, clause[k])
  }

  /** A CNF holds when each of its clauses holds. */
  predicate SatisfiesAll(a: Assignment, cnf: seq<seq<Variable>>)
  {
    forall k :: 0 <= k < |cnf| ==> Satisfies(a, cnf[k])
  }

  lemma SatisfiesAllAppend(a: Assignment, x: seq<seq<Variable>>, y: seq<seq<Variable>>)
    ensures SatisfiesAll(a, x + y) <==> SatisfiesAll(a, x) && SatisfiesAll(a, y)
  {
    if SatisfiesAll(a, x) && SatisfiesAll(a, y) {
      forall k | 0 <= k < |x + y| ensures Satisfies(a, (x + y)[k]) {
        if k >= |x| { assert (x + y)[k] == y[k - |x|]; }
      }
    }
    if SatisfiesAll(a, x + y) {
      forall k | 0 <= k < |x| ensures Satisfies(a, x[k]) {
        assert (x + y)[k] == x[k];
      }
      forall k | 0 <= k < |y| ensures Satisfies(a, y[k]) {
        assert (x + y)[|x| + k] == y[k];
      }
    }
  }

  // ---------------------------------------------------------------------
  // equivalence(left, right): left <-> OR(right)

  /** The clauses `equivalence` builds: `right ∨ ¬left`, then `¬right[i-1] ∨ left` for i = 1 .. N. */
  function EquivalenceCnf(left: Variable, right: seq<Variable>): (cnf: seq<seq<Variable>>)
    ensures |cnf| == |right| + 1
  {
    [right + [Not(left)]] + seq(|right|, i requires 0 <= i < |right| => [Not(right[i]), left])
  }

  /** Some variable of `vs` is true. */
  predicate AnyTrue(a: Assignment, vs: seq<Variable>)
  {
    exists k :: 0 <= k < |vs| && Value(a, vs[k])
  }

  /** Under every assignment the equivalence clauses hold exactly when `left` equals the OR of `right`. */
  lemma EquivalenceMeaning(a: Assignment, left: Variable, right: seq<Variable>)
    ensures SatisfiesAll(a, EquivalenceCnf(left, right)) <==> (Value(a, left) <==> AnyTrue(a, right))
  {
    var cnf := EquivalenceCnf(left, right);
    var first := right + [Not(left)];
    assert cnf[0] == first;
    assert Satisfies(a, first) <==> AnyTrue(a, right) || !Value(a, left) by {
      if AnyTrue(a, right) {
        var k :| 0 <= k < |right| && Value(a, right[k]);
        assert first[k] == right[k];
      }
      if !Value(a, left) {
        assert Value(a, first[|right|]);
      }
      if Satisfies(a, first) {
        var k :| 0 <= k < |first| && Value(a, first[k]);
        if k < |right| { assert first[k] == right[k]; }
      }
    }
    if Value(a, left) <==> AnyTrue(a, right) {
      forall k | 0 <= k < |cnf| ensures Satisfies(a, cnf[k]) {
        if k > 0 {
          assert cnf[k] == [Not(right[k - 1]), left];
          if !Value(a, left) {
            assert !Value(a, right[k - 1]);
            assert Value(a, cnf[k][0]);
          } else {
            assert Value(a, cnf[k][1]);
          }
        }
      }
    }
    if SatisfiesAll(a, cnf) {
      assert Satisfies(a, cnf[0]);
      if AnyTrue(a, right) {
        var k :| 0 <= k < |right| && Value(a, right[k]);
        assert Satisfies(a, cnf[k + 1]);
        assert cnf[k + 1] == [Not(right[k]), left];
      }
    }
  }

  /** `equivalence(left, right)`: an array of |right| + 1 clauses, slot 0 first, then one per element of `right`. */
  method Equivalence(left: Variable, right: seq<Variable>) returns (clauses: array<Clause?>)
    ensures fresh(clauses)
    ensures clauses.Length == |right| + 1
    ensures Filled(clauses[..])
    ensures clauses[0].variables == right + [Not(left)]
    ensures forall i :: 1 <= i <= |right| ==> clauses[i].variables == [Not(right[i - 1]), left]
    ensures Contents(clauses[..]) == EquivalenceCnf(left, right)
    ensures forall k :: 0 <= k < clauses.Length ==> fresh(clauses[k])
    ensures forall k, m :: 0 <= k < m < clauses.Length ==> clauses[k] != clauses[m]
  {
    var numberOfClauses := |right| + 1;
    clauses := new Clause?[numberOfClauses];
    var c := new Clause(right);
    c.AddVariable(Not(left));
    clauses[0] := c;
    for i := 1 to numberOfClauses
      invariant clauses[0] != null && clauses[0].variables == right + [Not(left)]
      invariant forall k :: 1 <= k < i ==> clauses[k] != null && clauses[k].variables == [Not(right[k - 1]), left]
      invariant forall k :: 0 <= k < i ==> fresh(clauses[k])
      invariant forall k, m :: 0 <= k < m < i ==> clauses[k] != clauses[m]
    {
      clauses[i] := new Clause([Not(right[i - 1]), left]);
    }
  }

  // ---------------------------------------------------------------------
  // onlyOne(vars): exactly one of vars is true

  /** Row `i` of the pairwise clauses: `¬vars[i] ∨ ¬vars[j]` for j = i + 1 .. n - 1, j ascending. */
  function Row(vars: seq<Variable>, i: nat): (row: seq<seq<Variable>>)
    requires i < |vars|
    ensures |row| == |vars| - i - 1
    ensures forall j :: 0 <= j < |row| ==> |row[j]| == 2
  {
    seq(|vars| - i - 1, j requires 0 <= j < |vars| - i - 1 => [Not(vars[i]), Not(vars[i + 1 + j])])
  }

  /** Rows 0 .. i - 1 of the pairwise clauses, in row-major order. */
  function PairsUpTo(vars: seq<Variable>, i: nat): (pairs: seq<seq<Variable>>)
    requires i <= |vars|
    ensures forall k :: 0 <= k < |pairs| ==> |pairs[k]| == 2
  {
    if i == 0 then [] else PairsUpTo(vars, i - 1) + Row(vars, i - 1)
  }

  /** The clauses `onlyOne` builds: all pair clauses, then the at-least-one clause `vars`. */
  function OnlyOneCnf(vars: seq<Variable>): (cnf: seq<seq<Variable>>)
    ensures |cnf| >= 1 && cnf[|cnf| - 1] == vars
    ensures forall k :: 0 <= k < |cnf| - 1 ==> |cnf[k]| == 2
  {
    PairsUpTo(vars, |vars|) + [vars]
  }

  /** Rows 0 .. i - 1 hold i * (2n - i - 1) / 2 clauses. */
  lemma {:induction false} PairsUpToLength(vars: seq<Variable>, i: nat)
    requires i <= |vars|
    ensures 2 * |PairsUpTo(vars, i)| == i * (2 * |vars| - i - 1)
  {
    if i > 0 {
      PairsUpToLength(vars, i - 1);
      var n := |vars|;
      assert 2 * |PairsUpTo(vars, i)| == (i - 1) * (2 * n - i) + 2 * (n - i);
      assert (i - 1) * (2 * n - i) + 2 * (n - i) == i * (2 * n - i - 1);
    }
  }

  /** `onlyOne` on n variables gives n(n-1)/2 pair clauses and one more. */
  lemma OnlyOneCount(vars: seq<Variable>)
    ensures |OnlyOneCnf(vars)| == |vars| * (|vars| - 1) / 2 + 1
    ensures |PairsUpTo(vars, |vars|)| == |vars| * (|vars| - 1) / 2
  {
    PairsUpToLength(vars, |vars|);
  }

  /** No two positions of `vars` are both true. */
  predicate NoTwoTrue(a: Assignment, vars: seq<Variable>)
  {
    forall p, q :: 0 <= p < q < |vars| ==> !(Value(a, vars[p]) && Value(a, vars[q]))
  }

  /** Exactly one position of `vars` holds a true variable. */
  predicate ExactlyOne(a: Assignment, vars: seq<Variable>)
  {
    exists k :: 0 <= k < |vars| && Value(a, vars[k]) &&
      forall m :: 0 <= m < |vars| && m != k ==> !Value(a, vars[m])
  }

  lemma RowMeaning(a: Assignment, vars: seq<Variable>, p: nat)
    requires p < |vars|
    ensures SatisfiesAll(a, Row(vars, p)) <==>
            forall q :: p < q < |vars| ==> !(Value(a, vars[p]) && Value(a, vars[q]))
  {
    var row := Row(vars, p);
    forall j | 0 <= j < |row|
      ensures Satisfies(a, row[j]) <==> !(Value(a, vars[p]) && Value(a, vars[p + 1 + j]))
    {
      var c := row[j];
      assert c == [Not(vars[p]), Not(vars[p + 1 + j])];
      assert Value(a, c[0]) == !Value(a, vars[p]);
      assert Value(a, c[1]) == !Value(a, vars[p + 1 + j]);
      if Satisfies(a, c) {
        var t :| 0 <= t < |c| && Value(a, c[t]);
        assert t == 0 || t == 1;
      }
    }
    if SatisfiesAll(a, row) {
      forall q | p < q < |vars| ensures !(Value(a, vars[p]) && Value(a, vars[q])) {
        assert Satisfies(a, row[q - p - 1]);
      }
    }
  }

  /** Rows 0 .. i - 1 hold exactly when no pair (p, q) with p < i has both variables true. */
  lemma {:induction false} PairsUpToMeaning(a: Assignment, vars: seq<Variable>, i: nat)
    requires i <= |vars|
    ensures SatisfiesAll(a, PairsUpTo(vars, i)) <==>
            forall p, q :: 0 <= p < i && p < q < |vars| ==> !(Value(a, vars[p]) && Value(a, vars[q]))
  {
    if i > 0 {
      PairsUpToMeaning(a, vars, i - 1);
      SatisfiesAllAppend(a, PairsUpTo(vars, i - 1), Row(vars, i - 1));
      RowMeaning(a, vars, i - 1);
    }
  }

  /** Under every assignment the `onlyOne` clauses hold exactly when one position of `vars` is true. */
  lemma OnlyOneMeaning(a: Assignment, vars: seq<Variable>)
    ensures SatisfiesAll(a, OnlyOneCnf(vars)) <==> ExactlyOne(a, vars)
  {
    var pairs := PairsUpTo(vars, |vars|);
    PairsUpToMeaning(a, vars, |vars|);
    SatisfiesAllAppend(a, pairs, [vars]);
    assert SatisfiesAll(a, [vars]) <==> Satisfies(a, vars) by {
      assert [vars][0] == vars;
    }
    if ExactlyOne(a, vars) {
      var k :| 0 <= k < |vars| && Value(a, vars[k]) &&
        forall m :: 0 <= m < |vars| && m != k ==> !Value(a, vars[m]);
      assert Satisfies(a, vars);
    }
    if NoTwoTrue(a, vars) && Satisfies(a, vars) {
      var k :| 0 <= k < |vars| && Value(a, vars[k]);
      forall m | 0 <= m < |vars| && m != k ensures !Value(a, vars[m]) {
        var p, q := if m < k then m else k, if m < k then k else m;
        assert !(Value(a, vars[p]) && Value(a, vars[q]));
      }
    }
  }

  /** With no variables the single clause is empty, so `onlyOne()` can never be satisfied. */
  lemma OnlyOneOfNone(a: Assignment)
    ensures OnlyOneCnf([]) == [[]]
    ensures !SatisfiesAll(a, OnlyOneCnf([]))
  {
    assert OnlyOneCnf([]) == [[]];
    assert !Satisfies(a, OnlyOneCnf([])[0]);
  }

  /**
   * `onlyOne(vars)`: an array of n(n-1)/2 + 1 clauses. The nested loops fill
   * slots 0 .. n(n-1)/2 - 1 with the pair clauses through a running index,
   * and the last slot receives the at-least-one clause. Every slot holds a
   * clause object of its own, made by this call.
   */
  method OnlyOne(vars: seq<Variable>) returns (clauses: array<Clause?>)
    ensures fresh(clauses)
    ensures clauses.Length == |vars| * (|vars| - 1) / 2 + 1
    ensures Filled(clauses[..])
    ensures clauses[clauses.Length - 1].variables == vars
    ensures Contents(clauses[..]) == OnlyOneCnf(vars)
    ensures forall k :: 0 <= k < clauses.Length ==> fresh(clauses[k])
    ensures forall k, m :: 0 <= k < m < clauses.Length ==> clauses[k] != clauses[m]
  {
    var n := |vars|;
    var numberOfClauses := n * (n - 1) / 2 + 1;
    OnlyOneCount(vars);
    clauses := new Clause?[numberOfClauses];
    var index := FillPairs(clauses, vars);
    clauses[clauses.Length - 1] := new Clause(vars);
    assert Contents(clauses[..]) == PairsUpTo(vars, n) + [vars];
  }

  /**
   * The pair loops of `onlyOne`: slot k < n(n-1)/2 receives pair clause k, in
   * row-major order; the loops never reach the last slot.
   */
  method FillPairs(clauses: array<Clause?>, vars: seq<Variable>) returns (index: nat)
    requires clauses.Length == |PairsUpTo(vars, |vars|)| + 1
    modifies clauses
    ensures index == |PairsUpTo(vars, |vars|)|
    ensures forall k :: 0 <= k < index ==>
              clauses[k] != null && fresh(clauses[k]) && clauses[k].variables == PairsUpTo(vars, |vars|)[k]
    ensures forall k, m :: 0 <= k < m < index ==> clauses[k] != clauses[m]
    ensures forall k :: index <= k < clauses.Length ==> clauses[k] == old(clauses[k])
  {
    var n := |vars|;
    ghost var total := PairsUpTo(vars, n);
    index := 0;
    var i := 0;
    while i < n - 1
      invariant 0 <= i <= n
      invariant n > 0 ==> i <= n - 1
      invariant index == |PairsUpTo(vars, i)| <= |total|
      invariant forall k :: 0 <= k < index ==>
                  clauses[k] != null && fresh(clauses[k]) && clauses[k].variables == PairsUpTo(vars, i)[k]
      invariant forall k, m :: 0 <= k < m < index ==> clauses[k] != clauses[m]
      invariant forall k :: index <= k < clauses.Length ==> clauses[k] == old(clauses[k])
    {
      ghost var done := PairsUpTo(vars, i);
      PairsUpToLength(vars, i + 1);
      PairsUpToLength(vars, n);
      PairsGrow(vars, i + 1, n);
      index := FillRow(clauses, vars, i, index);
      assert PairsUpTo(vars, i + 1) == done + Row(vars, i);
      i := i + 1;
    }
    assert n > 0 ==> PairsUpTo(vars, n) == PairsUpTo(vars, n - 1) + Row(vars, n - 1);
  }

  /**
   * The inner loop of `onlyOne`: from slot `start` on, the running index
   * receives the pair clauses of row `i`, each a new clause object; every
   * other slot keeps what it held.
   */
  method FillRow(clauses: array<Clause?>, vars: seq<Variable>, i: nat, start: nat) returns (next: nat)
    requires i < |vars| && start + (|vars| - i - 1) <= clauses.Length
    modifies clauses
    ensures next == start + (|vars| - i - 1)
    ensures forall k :: 0 <= k < start || next <= k < clauses.Length ==> clauses[k] == old(clauses[k])
    ensures forall k :: start <= k < next ==>
              clauses[k] != null && fresh(clauses[k]) && clauses[k].variables == Row(vars, i)[k - start]
    ensures forall k, m :: start <= k < m < next ==> clauses[k] != clauses[m]
  {
    next := start;
    for j := i + 1 to |vars|
      invariant next == start + (j - i - 1)
      invariant forall k :: 0 <= k < start || next <= k < clauses.Length ==> clauses[k] == old(clauses[k])
      invariant forall k :: start <= k < next ==>
                  clauses[k] != null && fresh(clauses[k]) && clauses[k].variables == Row(vars, i)[k - start]
      invariant forall k, m :: start <= k < m < next ==> clauses[k] != clauses[m]
    {
      clauses[next] := new Clause([Not(vars[i]), Not(vars[j])]);
      next := next + 1;
    }
  }

  /** Earlier rows are a prefix of later ones, so the pair count only grows with the row. */
  lemma {:induction false} PairsGrow(vars: seq<Variable>, i: nat, k: nat)
    requires i <= k <= |vars|
    ensures |PairsUpTo(vars, i)| <= |PairsUpTo(vars, k)|
    decreases k - i
  {
    if i < k {
      PairsGrow(vars, i, k - 1);
    }
  }
}
