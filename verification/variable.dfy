/**
 * Decision variables and the registry that numbers them (Variable.java).
 *
 * The source keeps the counter and the two maps in static fields of the
 * Variable class; here they are the fields of an explicit Registry object.
 * A variable value is its number and its sign; the positive form of each
 * number is the instance the registry hands out and files results under.
 */
module Variables {
  import opened Wrappers
  import opened Text

  /** A variable as it appears in a clause: a number and whether it is the negated form. */
  datatype Variable = Variable(number: nat, negative: bool)

  /** `not()`: the same number with the opposite sign; nothing else is touched. */
  function Not(v: Variable): (r: Variable)
    ensures r.number == v.number && r.negative == !v.negative
  {
    Variable(v.number, !v.negative)
  }

  /** `toString()`: the number, preceded by a hyphen when the variable is negated. */
  function VariableText(v: Variable): (s: string)
    ensures v.negative ==> |s| >= 2 && s[0] == '-' && s[1..] == NatText(v.number)
    ensures !v.negative ==> s == NatText(v.number)
    ensures NoWhitespace(s) && NoNewline(s)
  {
    var digits := NatText(v.number);
    assert forall i :: 0 <= i < |digits| ==> IsDigit(digits[i]);
    (if v.negative then "-" else "") + digits
  }

  /** Negating twice gives back the same value, so it renders the same text. */
  lemma DoubleNegation(v: Variable)
    ensures Not(Not(v)) == v
    ensures VariableText(Not(Not(v))) == VariableText(v)
  {
  }

  /** Distinct variables render as distinct text: the sign and the number can be read back. */
  lemma {:induction false} VariableTextInjective(v: Variable, w: Variable)
    requires VariableText(v) == VariableText(w)
    ensures v == w
  {
    var s := VariableText(v);
    assert v.negative == w.negative by {
      assert IsDigit(NatText(v.number)[0]) && IsDigit(NatText(w.number)[0]);
    }
    assert NatText(v.number) == NatText(w.number);
    NatTextRoundTrip(v.number);
    NatTextRoundTrip(w.number);
  }

  /** Why a result lookup can fail. */
  datatype LookupError = NotYetAvailable

  /**
   * The static state of Variable.java: `currentVariableNumber` (`next`),
   * `variables` (number to registered positive instance) and `results`
   * (registered instance to solver value, keyed here by number).
   */
  class Registry {
    var next: nat
    var variables: map<nat, Variable>
    var results: map<nat, bool>

    /** Numbers 1 .. next - 1 are taken, each by its positive form, and only they can carry a result. */
    ghost predicate Valid()
      reads this
    {
      && next >= 1
      && (forall i :: i in variables <==> 1 <= i < next)
      && |variables| == next - 1
      && (forall i :: i in variables ==> variables[i] == Variable(i, false))
      && results.Keys <= variables.Keys
    }

    /** The static initialiser: the counter starts at 1 and both maps are empty. */
    constructor ()
      ensures Valid()
      ensures next == 1 && variables == map[] && results == map[]
    {
      next := 1;
      variables := map[];
      results := map[];
    }

    /** `getVariable()`: the next number, registered in its positive form. */
    method GetVariable() returns (v: Variable)
      requires Valid()
      modifies this
      ensures Valid()
      ensures v == Variable(old(next), false)
      ensures next == old(next) + 1
      ensures variables == old(variables)[v.number := v]
      ensures v.number !in old(variables)
      ensures results == old(results)
    {
      v := Variable(next, false);
      variables := variables[next := v];
      next := next + 1;
    }

    /** `getNumberOfVariables()`: how many variables have been handed out. */
    function NumberOfVariables(): (n: nat)
      requires Valid()
      reads this
      ensures n == |variables|
      ensures forall i :: i in variables <==> 1 <= i <= n
    {
      next - 1
    }

    /**
     * `setResult(i, b)`: files `b` under the registered instance for `i`.
     * For a number that was never handed out the source files it under a
     * null key that no lookup reaches, so no registered variable changes.
     */
    method SetResult(i: nat, b: bool)
      requires Valid()
      modifies this`results
      ensures Valid()
      ensures results == if i in variables then old(results)[i := b] else old(results)
    {
      if i in variables {
        results := results[i := b];
      }
    }

    /**
     * `getResult()`: the value filed for `v`. Results are filed under the
     * registered positive instance; a negated view is a different object
     * and never finds one.
     */
    function GetResult(v: Variable): (r: Result<bool, LookupError>)
      reads this
      ensures r.Success? <==> !v.negative && v.number in results
      ensures r.Success? ==> r.value == results[v.number]
    {
      if !v.negative && v.number in results then Success(results[v.number]) else Failure(NotYetAvailable)
    }
  }

  /** Consecutive `getVariable()` calls on a fresh registry hand out 1, 2, 3 and count them. */
  method FirstThreeVariables() returns (a: Variable, b: Variable, c: Variable, count: nat)
    ensures a == Variable(1, false) && b == Variable(2, false) && c == Variable(3, false)
    ensures count == 3
  {
    var registry := new Registry();
    a := registry.GetVariable();
    b := registry.GetVariable();
    c := registry.GetVariable();
    count := registry.NumberOfVariables();
  }

  /** A later `setResult` for the same number overwrites; the negated view finds nothing. */
  method OverwriteResult() returns (first: Result<bool, LookupError>, last: Result<bool, LookupError>,
                                    negated: Result<bool, LookupError>, before: Result<bool, LookupError>)
    ensures before == Failure(NotYetAvailable)
    ensures first == Success(true) && last == Success(false)
    ensures negated == Failure(NotYetAvailable)
  {
    var registry := new Registry();
    var v := registry.GetVariable();
    before := registry.GetResult(v);
    registry.SetResult(v.number, true);
    first := registry.GetResult(v);
    registry.SetResult(v.number, false);
    last := registry.GetResult(v);
    negated := registry.GetResult(Not(v));
  }
}
