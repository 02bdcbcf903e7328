/** Recursion/ArithmeticSubstitution: the backtracking search for `+`/`-` operators between the
    terms of an equation, evaluated left to right in Java `int` arithmetic. The functions give the
    meaning (left-to-right evaluation, the search tree explored with `+` first) and the methods
    follow the Java code on arrays. */
module ArithmeticSubstitution {
  import opened Runtime

  /** The enum `ArithmeticOperation`. */
  datatype ArithmeticOperation = Addition | Subtraction

  /** `sum + term` or `sum - term` in Java `int` arithmetic. */
  function Apply(sum: Int32, op: ArithmeticOperation, term: Int32): Int32 {
    if op == Addition then Wrap32(sum + term) else Wrap32(sum - term)
  }

  /** The value of `sum ops[0] terms[k] ops[1] terms[k + 1] ...`, evaluated left to right. */
  function EvalFrom(terms: seq<Int32>, k: nat, sum: Int32, ops: seq<ArithmeticOperation>): Int32
    requires k + |ops| == |terms|
    decreases |ops|
  {
    if ops == [] then sum else EvalFrom(terms, k + 1, Apply(sum, ops[0], terms[k]), ops[1..])
  }

  /** The value of the whole equation's left-hand side: `terms[0] ops[0] terms[1] ...`. */
  function Eval(terms: seq<Int32>, ops: seq<ArithmeticOperation>): Int32
    requires |terms| >= 1 && |ops| == |terms| - 1
  {
    EvalFrom(terms, 1, terms[0], ops)
  }

  /** The search of `doArithmeticSub` from term `k` with left-hand side `sum` so far: the operators
      for the remaining terms it settles on, `+` tried before `-`, or None when both fail. */
  function Search(terms: seq<Int32>, answer: Int32, k: nat, sum: Int32): Option<seq<ArithmeticOperation>>
    requires k <= |terms|
    decreases |terms| - k
  {
    if k == |terms| then
      if sum == answer then Some([]) else None
    else
      match Search(terms, answer, k + 1, Apply(sum, Addition, terms[k]))
      case Some(rest) => Some([Addition] + rest)
      case None =>
        match Search(terms, answer, k + 1, Apply(sum, Subtraction, terms[k]))
        case Some(rest) => Some([Subtraction] + rest)
        case None => None
  }

  /** What `arithmeticSub(terms, answer)` returns: the operators found, or None for `null`. */
  function Substitute(terms: seq<Int32>, answer: Int32): Option<seq<ArithmeticOperation>>
    requires |terms| >= 1
  {
    Search(terms, answer, 1, terms[0])
  }

  /** `a` comes no later than `b` in lexicographic order with `Addition` before `Subtraction`. */
  predicate LexLeq(a: seq<ArithmeticOperation>, b: seq<ArithmeticOperation>)
    requires |a| == |b|
    decreases |a|
  {
    a == [] || (a[0] == Addition && b[0] == Subtraction) || (a[0] == b[0] && LexLeq(a[1..], b[1..]))
  }

  /** Soundness: operators the search returns fill every remaining gap and reach `answer`. */
  lemma {:induction false} SearchSound(terms: seq<Int32>, answer: Int32, k: nat, sum: Int32)
    requires k <= |terms| && Search(terms, answer, k, sum).Some?
    ensures var ops := Search(terms, answer, k, sum).value;
      k + |ops| == |terms| && EvalFrom(terms, k, sum, ops) == answer
    decreases |terms| - k
  {
    if k < |terms| {
      var plus := Apply(sum, Addition, terms[k]);
      var minus := Apply(sum, Subtraction, terms[k]);
      if Search(terms, answer, k + 1, plus).Some? {
        SearchSound(terms, answer, k + 1, plus);
        var ops := Search(terms, answer, k, sum).value;
        assert ops[1..] == Search(terms, answer, k + 1, plus).value;
      } else {
        SearchSound(terms, answer, k + 1, minus);
        var ops := Search(terms, answer, k, sum).value;
        assert ops[1..] == Search(terms, answer, k + 1, minus).value;
      }
    }
  }

  /** Completeness: when some operators for the remaining gaps reach `answer`, the search finds
      an answer. */
  lemma {:induction false} SearchComplete(terms: seq<Int32>, answer: Int32, k: nat, sum: Int32, ops: seq<ArithmeticOperation>)
    requires k + |ops| == |terms| && EvalFrom(terms, k, sum, ops) == answer
    ensures Search(terms, answer, k, sum).Some?
    decreases |ops|
  {
    if ops != [] {
      SearchComplete(terms, answer, k + 1, Apply(sum, ops[0], terms[k]), ops[1..]);
    }
  }

  /** The search returns the first solution in lexicographic order, `+` before `-`. */
  lemma {:induction false} SearchFirst(terms: seq<Int32>, answer: Int32, k: nat, sum: Int32, ops: seq<ArithmeticOperation>)
    requires k + |ops| == |terms| && EvalFrom(terms, k, sum, ops) == answer
    ensures Search(terms, answer, k, sum).Some?
    ensures |Search(terms, answer, k, sum).value| == |ops|
    ensures LexLeq(Search(terms, answer, k, sum).value, ops)
    decreases |ops|
  {
    SearchComplete(terms, answer, k, sum, ops);
    SearchSound(terms, answer, k, sum);
    if ops != [] {
      var r := Search(terms, answer, k, sum).value;
      var plus := Apply(sum, Addition, terms[k]);
      var minus := Apply(sum, Subtraction, terms[k]);
      if ops[0] == Addition {
        SearchFirst(terms, answer, k + 1, plus, ops[1..]);
        assert r == [Addition] + Search(terms, answer, k + 1, plus).value;
        assert r[1..] == Search(terms, answer, k + 1, plus).value;
      } else if Search(terms, answer, k + 1, plus).None? {
        SearchFirst(terms, answer, k + 1, minus, ops[1..]);
        assert r == [Subtraction] + Search(terms, answer, k + 1, minus).value;
        assert r[1..] == Search(terms, answer, k + 1, minus).value;
      } else {
        assert r[0] == Addition;
      }
    }
  }

  /** `arithmeticSub` is correct: it returns operators, one per gap, exactly when some choice of
      operators makes the equation hold; what it returns makes the equation hold; and no solution
      comes before it in lexicographic order with `+` first. */
  lemma SubstituteCorrect(terms: seq<Int32>, answer: Int32)
    requires |terms| >= 1
    ensures Substitute(terms, answer).Some? <==>
      exists ops :: |ops| == |terms| - 1 && Eval(terms, ops) == answer
    ensures Substitute(terms, answer).Some? ==>
      var r := Substitute(terms, answer).value;
      && |r| == |terms| - 1 && Eval(terms, r) == answer
      && forall ops :: |ops| == |terms| - 1 && Eval(terms, ops) == answer ==> LexLeq(r, ops)
  {
    if Substitute(terms, answer).Some? {
      SearchSound(terms, answer, 1, terms[0]);
      var r := Substitute(terms, answer).value;
      assert |r| == |terms| - 1 && Eval(terms, r) == answer;
      forall ops | |ops| == |terms| - 1 && Eval(terms, ops) == answer
        ensures LexLeq(r, ops)
      {
        SearchFirst(terms, answer, 1, terms[0], ops);
      }
    }
    if exists ops :: |ops| == |terms| - 1 && Eval(terms, ops) == answer {
      var ops :| |ops| == |terms| - 1 && Eval(terms, ops) == answer;
      SearchComplete(terms, answer, 1, terms[0], ops);
    }
  }

  /** With one term the answer is the empty operator list when the term equals `answer`, and
      `null` otherwise. */
  lemma SingleTerm(t: Int32, answer: Int32)
    ensures Substitute([t], answer) == if t == answer then Some([]) else None
  {
  }

  /** The minimum and maximum `int`: `+` gives -1 exactly, and `-` wraps around to 1. */
  lemma MinMaxWrap()
    ensures Substitute([INT_MIN, INT_MAX], -1) == Some([Addition])
    ensures Substitute([INT_MIN, INT_MAX], 1) == Some([Subtraction])
  {
    var t: seq<Int32> := [INT_MIN, INT_MAX];
    assert [Addition] + [] == [Addition] && [Subtraction] + [] == [Subtraction];
    assert Apply(INT_MIN, Addition, INT_MAX) == -1;
    assert Apply(INT_MIN, Subtraction, INT_MAX) == 1;
    assert Search(t, -1, 2, -1) == Some([]);
    assert Search(t, 1, 2, -1) == None;
    assert Search(t, 1, 2, 1) == Some([]);
  }

  /** The two-term cases: `+`, `-`, and an unsolvable one. */
  lemma TwoTermExamples()
    ensures Substitute([7, 9], 16) == Some([Addition])
    ensures Substitute([7, 9], -2) == Some([Subtraction])
    ensures Substitute([7, 9], 42) == None
  {
    var t: seq<Int32> := [7, 9];
    assert [Addition] + [] == [Addition] && [Subtraction] + [] == [Subtraction];
    assert Search(t, 16, 2, 16) == Some([]);
    assert Search(t, -2, 2, 16) == None && Search(t, -2, 2, -2) == Some([]);
    assert Search(t, 42, 2, 16) == None && Search(t, 42, 2, -2) == None;
  }

  /** The three-term cases, one per pair of operators: the search backtracks past every earlier
      choice. */
  lemma ThreeTermExamples()
    ensures Substitute([7, 9, 11], 27) == Some([Addition, Addition])
    ensures Substitute([7, 9, 11], 5) == Some([Addition, Subtraction])
    ensures Substitute([7, 9, 11], 9) == Some([Subtraction, Addition])
    ensures Substitute([7, 9, 11], -13) == Some([Subtraction, Subtraction])
  {
    var t: seq<Int32> := [7, 9, 11];
    assert [Addition] + [] == [Addition] && [Subtraction] + [] == [Subtraction];
    assert [Addition] + [Addition] == [Addition, Addition] && [Addition] + [Subtraction] == [Addition, Subtraction];
    assert [Subtraction] + [Addition] == [Subtraction, Addition];
    assert [Subtraction] + [Subtraction] == [Subtraction, Subtraction];
    assert Search(t, 27, 2, 16) == Some([Addition]);
    assert Search(t, 5, 3, 27) == None && Search(t, 5, 2, 16) == Some([Subtraction]);
    assert Search(t, 9, 3, 27) == None && Search(t, 9, 3, 5) == None && Search(t, 9, 2, 16) == None;
    assert Search(t, 9, 2, -2) == Some([Addition]);
    assert Search(t, -13, 3, 27) == None && Search(t, -13, 3, 5) == None && Search(t, -13, 2, 16) == None;
    assert Search(t, -13, 3, 9) == None && Search(t, -13, 2, -2) == Some([Subtraction]);
  }

  /** The three examples of the problem description. */
  lemma DescriptionExamples()
    ensures Substitute([4, 3, 8], -1) == Some([Addition, Subtraction])
    ensures Substitute([4, 7, 2, 10], 3) == Some([Addition, Addition, Subtraction])
    ensures Substitute([100, -73, -22], 151) == Some([Subtraction, Addition])
  {
    assert [Addition] + [] == [Addition] && [Subtraction] + [] == [Subtraction];
    assert [Addition] + [Subtraction] == [Addition, Subtraction] && [Subtraction] + [Addition] == [Subtraction, Addition];
    assert [Addition] + [Addition, Subtraction] == [Addition, Addition, Subtraction];
    var a: seq<Int32> := [4, 3, 8];
    assert Search(a, -1, 3, 15) == None && Search(a, -1, 2, 7) == Some([Subtraction]);
    var b: seq<Int32> := [4, 7, 2, 10];
    assert Search(b, 3, 4, 23) == None && Search(b, 3, 3, 13) == Some([Subtraction]);
    assert Search(b, 3, 2, 11) == Some([Addition, Subtraction]);
    var c: seq<Int32> := [100, -73, -22];
    assert Search(c, 151, 3, 5) == None && Search(c, 151, 3, 49) == None && Search(c, 151, 2, 27) == None;
    assert Search(c, 151, 2, 173) == Some([Addition]);
  }

  /** `doArithmeticSub`: the recursive search writing its choice for gap `currentTerm - 1` into
      `operators` before each recursive call. It succeeds exactly when Search does, and then
      `operators` holds Search's answer from that gap on; the gaps before it are left alone. */
  method DoArithmeticSub(terms: array<Int32>, answer: Int32, operators: array<ArithmeticOperation>,
                         currentTerm: nat, currentSum: Int32) returns (success: bool)
    requires operators.Length == terms.Length - 1 && 1 <= currentTerm <= terms.Length
    modifies operators
    ensures success <==> Search(terms[..], answer, currentTerm, currentSum).Some?
    ensures success ==> operators[currentTerm - 1..] == Search(terms[..], answer, currentTerm, currentSum).value
    ensures operators[..currentTerm - 1] == old(operators[..currentTerm - 1])
    decreases terms.Length - currentTerm
  {
    if currentTerm == terms.Length {
      return currentSum == answer;
    }
    operators[currentTerm - 1] := Addition;
    success := DoArithmeticSub(terms, answer, operators, currentTerm + 1, Apply(currentSum, Addition, terms[currentTerm]));
    if success {
      return;
    }
    operators[currentTerm - 1] := Subtraction;
    success := DoArithmeticSub(terms, answer, operators, currentTerm + 1, Apply(currentSum, Subtraction, terms[currentTerm]));
  }

  /** `arithmeticSub(terms, answer)`: a fresh array holding Substitute's answer, or `null`;
      `terms` is not modified. */
  method ArithmeticSub(terms: array<Int32>, answer: Int32) returns (r: array?<ArithmeticOperation>)
    requires terms.Length >= 1
    ensures r == null <==> Substitute(terms[..], answer).None?
    ensures r != null ==> fresh(r) && r[..] == Substitute(terms[..], answer).value
  {
    var operators := new ArithmeticOperation[terms.Length - 1](_ => Addition);
    var success := DoArithmeticSub(terms, answer, operators, 1, terms[0]);
    if success {
      assert operators[..] == operators[0..];
      return operators;
    }
    return null;
  }

  /** `evalExpression`: the left-to-right value of the equation, rejecting an empty term list and
      an operator count other than one less than the term count. */
  method EvalExpression(terms: array<Int32>, operators: array<ArithmeticOperation>) returns (r: Result<Int32>)
    ensures r.Err? <==> terms.Length == 0 || operators.Length != terms.Length - 1
    ensures r.Err? ==> r.error == IllegalArgument
    ensures r.Ok? ==> r.value == Eval(terms[..], operators[..])
  {
    if terms.Length == 0 {
      return Err(IllegalArgument);
    }
    if operators.Length != terms.Length - 1 {
      return Err(IllegalArgument);
    }
    var sum := terms[0];
    assert operators[0..] == operators[..];
    for i := 0 to operators.Length
      invariant EvalFrom(terms[..], i + 1, sum, operators[i..]) == Eval(terms[..], operators[..])
    {
      assert operators[i..][1..] == operators[i + 1..];
      if operators[i] == Addition {
        sum := Wrap32(sum as int + terms[i + 1]);
      } else {
        sum := Wrap32(sum as int - terms[i + 1]);
      }
    }
    assert operators[operators.Length..] == [];
    return Ok(sum);
  }
}
