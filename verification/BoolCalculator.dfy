// The calculator: the evaluation loop, and the way from a string to a value. It is right on every
// string whose runs of ! are odd, except that it fails on two ! before the first key.
module BoolCalculator {
  import opened Wrappers
  import opened BoolGrammar
  import opened ShuntingYard
  import opened BoolMachine
  import opened BoolEffect

  method Calc(expression: seq<string>, keyCalcFun: Option<string -> bool>) returns (re: Outcome)
    ensures keyCalcFun.None? ==> re == NotSet
    ensures keyCalcFun.Some? ==> re == Answer(Run([], expression, keyCalcFun.value), keyCalcFun.value)
    ensures forall e :: keyCalcFun.Some? && Valid(e) && expression == Postfix(e) ==>
              re == Value(Eval(e, keyCalcFun.value))
    ensures forall e :: keyCalcFun.Some? && Valid(e) && expression == Compiled(e) ==>
              re == if LeadingDouble(Text(e)) then Underflow else Value(ActualValue(e, keyCalcFun.value))
  {
    if keyCalcFun.None? {
      return NotSet;
    }
    var f := keyCalcFun.value;
    forall e | Valid(e) && expression == Postfix(e)
      ensures Answer(Run([], expression, f), f) == Value(Eval(e, f))
    {
      PostfixRuns(e, f);
    }
    forall e | Valid(e) && expression == Compiled(e)
      ensures Answer(Run([], expression, f), f)
           == if LeadingDouble(Text(e)) then Underflow else Value(ActualValue(e, f))
    {
      AnswerIs(e, f);
    }
    var st := [];
    for pos := 0 to |expression|
      invariant Run([], expression, f) == Run(st, expression[pos..], f)
    {
      assert expression[pos..][1..] == expression[pos + 1..];
      var token := expression[pos];
      if token == "!" {
        if st == [] {
          return Underflow;
        }
        var curRet := Force(Last(st), f);
        st := Rest(st);
        st := st + [Done(!curRet)];
      } else if token == "&" {
        if |st| < 2 {
          return Underflow;
        }
        var curRet1 := Force(Last(st), f);
        st := Rest(st);
        if !curRet1 {
          st := Rest(st);
          st := st + [Done(false)];
        } else {
          var curRet2 := Force(Last(st), f);
          st := Rest(st);
          st := st + [Done(curRet2)];
        }
      } else if token == "|" {
        if |st| < 2 {
          return Underflow;
        }
        var curRet1 := Force(Last(st), f);
        st := Rest(st);
        if curRet1 {
          st := Rest(st);
          st := st + [Done(true)];
        } else {
          var curRet2 := Force(Last(st), f);
          st := Rest(st);
          st := st + [Done(curRet2)];
        }
      } else {
        st := st + [Later(token)];
      }
    }
    if st == [] {
      return Underflow;
    }
    return Value(Force(Last(st), f));
  }

  // From the string to the value.
  method CalcText(expression: string, keyCalcFun: Option<string -> bool>) returns (re: Outcome)
    ensures re == Invalid <==> !exists e :: Valid(e) && Text(e) == expression
    ensures re == NotSet <==> re != Invalid && keyCalcFun.None?
    ensures re == Underflow <==> re != Invalid && re != NotSet && LeadingDouble(expression)
    ensures forall e :: re.Value? && Valid(e) && Text(e) == expression ==> re.b == ActualValue(e, keyCalcFun.value)
    ensures forall e :: re.Value? && Valid(e) && Text(e) == expression && OddRuns(expression) ==>
              re.b == Eval(e, keyCalcFun.value)
    ensures forall e :: re.Value? && Valid(e) && Text(e) == expression && !DoubleNot(expression) ==>
              re.b == Eval(e, keyCalcFun.value)
  {
    var mid := PreCalc(expression);
    if mid.None? {
      return Invalid;
    }
    re := Calc(mid.value, keyCalcFun);
    forall e | keyCalcFun.Some? && Valid(e) && Text(e) == expression && OddRuns(expression)
      ensures ActualValue(e, keyCalcFun.value) == Eval(e, keyCalcFun.value)
    {
      OddRunsRight(e, keyCalcFun.value);
    }
    if !DoubleNot(expression) {
      SingleIsOdd(expression);
    }
  }

  // The answer to the string of a tree is the value of the tree, whatever the keys are.
  ghost predicate RightForAll(e: Exp) {
    forall f :: Answer(Run([], Compiled(e), f), f) == Value(Eval(e, f))
  }

  // Odd runs, and no two ! before the first key, are enough.
  lemma OddRunsSuffice(e: Exp)
    requires Valid(e) && OddRuns(Text(e)) && !LeadingDouble(Text(e))
    ensures RightForAll(e)
  {
    forall f
      ensures Answer(Run([], Compiled(e), f), f) == Value(Eval(e, f))
    {
      AnswerIs(e, f);
      OddRunsRight(e, f);
    }
  }

  // Two ! before the first key are never right.
  lemma LeadingNeverRight(e: Exp)
    requires Valid(e) && LeadingDouble(Text(e))
    ensures !RightForAll(e)
  {
    AnswerIs(e, _ => true);
    assert Answer(Run([], Compiled(e), _ => true), _ => true) != Value(Eval(e, _ => true));
  }

  // ---------------------------------------------------------------- the connectives

  // j|k is a disjunction, j&k a conjunction.
  lemma TwoKeys(j: string, op: char, k: string, f: string -> bool)
    requires ValidKey(j) && ValidKey(k) && Operator(op)
    ensures var e := Exp(Key(j), More(op, Key(k), End));
            Valid(e) && Text(e) == j + [op] + k && RightForAll(e)
            && Eval(e, f) == if op == '|' then f(j) || f(k) else f(j) && f(k)
  {
    var t := More(op, Key(k), End);
    var e := Exp(Key(j), t);
    KeyTail(op, k, End, f(j), f);
    SingleNotsAreRight(e);
  }

  // !j is the negation.
  lemma NotKey(j: string, f: string -> bool)
    requires ValidKey(j)
    ensures var e := Exp(Not(Key(j)), End);
            Valid(e) && Text(e) == "!" + j && RightForAll(e) && Eval(e, f) == !f(j)
  {
    var e := Exp(Not(Key(j)), End);
    assert ValidUnary(Key(j)) && ValidTail(End) && TailText(End) == "";
    assert UnaryText(Key(j)) == j && EvalUnary(Key(j), f) == f(j);
    assert UnaryText(e.first) == "!" + j && EvalUnary(e.first, f) == !f(j);
    assert SingleNotsUnary(Key(j)) && SingleNotsUnary(e.first);
    SingleNotsAreRight(e);
  }

  // Without brackets the operators are applied from the left, with brackets inside out.
  lemma ThreeKeys(j: string, k: string, l: string, f: string -> bool)
    requires ValidKey(j) && ValidKey(k) && ValidKey(l)
    ensures var e := Exp(Key(j), More('|', Key(k), More('&', Key(l), End)));
            Valid(e) && Text(e) == j + "|" + k + "&" + l && RightForAll(e) && Eval(e, f) == ((f(j) || f(k)) && f(l))
    ensures var e := Exp(Key(j), More('|', Paren(Exp(Key(k), More('&', Key(l), End))), End));
            Valid(e) && Text(e) == j + "|(" + k + "&" + l + ")" && RightForAll(e) && Eval(e, f) == (f(j) || (f(k) && f(l)))
  {
    KeyTail('&', l, End, f(j) || f(k), f);
    KeyTail('&', l, End, f(k), f);
    var last := More('&', Key(l), End);
    KeyTail('|', k, last, f(j), f);
    var e := Exp(Key(j), More('|', Key(k), last));
    assert Text(e) == j + "|" + k + "&" + l;
    SingleNotsAreRight(e);
    TwoKeys(k, '&', l, f);
    var p := Paren(Exp(Key(k), last));
    assert ValidUnary(p) && EvalUnary(p, f) == (f(k) && f(l)) && SingleNotsUnary(p);
    assert UnaryText(p) == "(" + (k + "&" + l) + ")";
    var t := More('|', p, End);
    assert TailText(End) == "" && ValidTail(End) && ValidTail(t) && TailText(t) == "|" + UnaryText(p);
    assert EvalTail(f(j), t, f) == EvalTail(f(j) || EvalUnary(p, f), End, f) == (f(j) || EvalUnary(p, f));
    assert SingleNotsTail(End) && SingleNotsTail(t);
    SingleNotsAreRight(Exp(Key(j), t));
  }

  // One more key behind an operator.
  lemma KeyTail(op: char, k: string, r: Tail, acc: bool, f: string -> bool)
    requires ValidKey(k) && Operator(op) && ValidTail(r) && SingleNotsTail(r)
    ensures var t := More(op, Key(k), r);
            ValidTail(t) && SingleNotsTail(t) && TailText(t) == [op] + k + TailText(r)
            && EvalTail(acc, t, f) == EvalTail(if op == '|' then acc || f(k) else acc && f(k), r, f)
    ensures TailText(End) == "" && EvalTail(acc, End, f) == acc
  {
    assert UnaryText(Key(k)) == k && EvalUnary(Key(k), f) == f(k) && SingleNotsUnary(Key(k));
  }

  lemma SingleNotsAreRight(e: Exp)
    requires Valid(e) && SingleNots(e)
    ensures RightForAll(e)
  {
    ExpDouble(e);
    SingleIsOdd(Text(e));
    OddRunsSuffice(e);
  }

  // ---------------------------------------------------------------- j&!...!k

  function Nots(n: nat, k: string): Unary {
    if n == 0 then Key(k) else Not(Nots(n - 1, k))
  }

  function JoinNots(j: string, n: nat, k: string): Exp {
    Exp(Key(j), More('&', Nots(n, k), End))
  }

  lemma {:induction false} NotsFacts(n: nat, k: string, f: string -> bool)
    requires ValidKey(k)
    ensures ValidUnary(Nots(n, k)) && UnaryText(Nots(n, k)) == seq(n, _ => '!') + k
    ensures FlipsAfter(Nots(n, k)) == n && ActualBase(Nots(n, k), f) == f(k)
    ensures EvalUnary(Nots(n, k), f) == Flip(f(k), n)
  {
    if n == 0 {
      assert seq(n, _ => '!') + k == k;
    } else {
      NotsFacts(n - 1, k, f);
      assert seq(n, _ => '!') == "!" + seq(n - 1, _ => '!');
    }
  }

  // What j&!...!k with n times ! stands for, and what it evaluates to.
  lemma JoinNotsAnswer(j: string, n: nat, k: string, f: string -> bool)
    requires ValidKey(j) && ValidKey(k)
    ensures var e := JoinNots(j, n, k);
            Valid(e) && Text(e) == j + "&" + seq(n, _ => '!') + k && Eval(e, f) == (f(j) && Flip(f(k), n))
            && Answer(Run([], Compiled(e), f), f)
            == Value(if n == 0 then f(j) && f(k) else Flip(f(j), n - 1) && !f(k))
  {
    var e, u := JoinNots(j, n, k), Nots(n, k);
    NotsFacts(n, k, f);
    if n > 0 {
      NotsFacts(n - 1, k, f);
    }
    assert TailText(End) == "" && ValidTail(End);
    assert TailText(e.rest) == "&" + UnaryText(u) + "";
    assert Text(e) == j + "&" + seq(n, _ => '!') + k;
    assert EvalTail(f(j), e.rest, f) == EvalTail(f(j) && EvalUnary(u, f), End, f);
    assert ActualTail(f(j), e.rest, f) == ActualTail(Flip(f(j), Flips(u)) && Actual(u, f), End, f);
    AnswerIs(e, f);
    LeadingFlips(e.first, TailText(e.rest));
  }

  // Odd runs are needed there: it is right for all values of the keys only if n is odd or zero.
  lemma JoinNotsRight(j: string, n: nat, k: string)
    requires ValidKey(j) && ValidKey(k)
    ensures RightForAll(JoinNots(j, n, k)) <==> n == 0 || n % 2 == 1
  {
    var e := JoinNots(j, n, k);
    forall f
      ensures Answer(Run([], Compiled(e), f), f) == Value(Eval(e, f)) <==>
              (n == 0 || (Flip(f(j), n - 1) && !f(k)) == (f(j) && Flip(f(k), n)))
    {
      JoinNotsAnswer(j, n, k, f);
    }
    if n > 0 && n % 2 == 0 {
      var f: string -> bool := _ => true;
      assert (Flip(f(j), n - 1) && !f(k)) != (f(j) && Flip(f(k), n));
    }
  }

  // j&!!k evaluates as if it were !j&!k.
  lemma DoubleNotWrong(j: string, k: string, f: string -> bool)
    requires ValidKey(j) && ValidKey(k)
    ensures var e := Exp(Key(j), More('&', Not(Not(Key(k))), End));
            Valid(e) && Text(e) == j + "&!!" + k && Eval(e, f) == (f(j) && f(k))
            && Answer(Run([], Compiled(e), f), f) == Value(!f(j) && !f(k))
  {
    JoinNotsAnswer(j, 2, k, f);
    assert Nots(2, k) == Not(Not(Key(k))) by { assert Nots(1, k) == Not(Nots(0, k)); }
    assert j + "&" + seq(2, _ => '!') + k == j + "&!!" + k;
  }

  // !!k is accepted, and evaluating it looks at an empty stack.
  lemma DoubleNotUnderflows(k: string, f: string -> bool)
    requires ValidKey(k)
    ensures var e := Exp(Not(Not(Key(k))), End);
            Valid(e) && Text(e) == "!!" + k && Answer(Run([], Compiled(e), f), f) == Underflow
  {
    var e := Exp(Nots(2, k), End);
    NotsFacts(2, k, f);
    assert Nots(2, k) == Not(Not(Key(k))) by { assert Nots(1, k) == Not(Nots(0, k)); }
    assert TailText(End) == "" && ValidTail(End);
    assert Text(e) == "!!" + k;
    assert DoubleAt(Text(e), 0);
    AnswerIs(e, f);
  }

  // ---------------------------------------------------------------- right by coincidence

  // Even runs can also cancel out: (j&!j)&(k&!!k) is false for all values of the keys, and that is
  // what it evaluates to.
  lemma RightByCoincidence(j: string, k: string)
    requires ValidKey(j) && ValidKey(k)
    ensures var e := Exp(Paren(JoinNots(j, 1, j)), More('&', Paren(JoinNots(k, 2, k)), End));
            Valid(e) && !OddRuns(Text(e)) && RightForAll(e)
  {
    var x, y := JoinNots(j, 1, j), JoinNots(k, 2, k);
    var e := Exp(Paren(x), More('&', Paren(y), End));
    var f0: string -> bool := _ => true;
    JoinNotsAnswer(j, 1, j, f0);
    JoinNotsAnswer(k, 2, k, f0);
    assert ValidUnary(Paren(x)) && ValidUnary(Paren(y)) && ValidTail(End);
    assert ValidTail(e.rest);
    assert Nots(2, k) == Not(Not(Key(k))) by { assert Nots(1, k) == Not(Nots(0, k)); }
    assert !OddNotsUnary(Nots(2, k));
    assert !OddNotsTail(y.rest);
    assert !OddNotsUnary(Paren(y));
    assert !OddNotsTail(e.rest);
    ExpOdd(e);
    forall f
      ensures Answer(Run([], Compiled(e), f), f) == Value(Eval(e, f))
    {
      JoinNotsAnswer(j, 1, j, f);
      JoinNotsAnswer(k, 2, k, f);
      AnswerIs(x, f);
      AnswerIs(e, f);
      assert LeadingDouble(Text(e)) <==> LeadingDouble(Text(x)) by {
        LeadingFlips(e.first, TailText(e.rest));
        LeadingFlips(x.first, TailText(x.rest));
      }
      assert EvalUnary(Paren(x), f) == false && Actual(Paren(x), f) == false;
      assert Eval(e, f) == EvalTail(false, e.rest, f) == EvalTail(false, End, f);
      assert Flips(Paren(y)) == 0;
      assert ActualValue(e, f) == ActualTail(false, e.rest, f) == ActualTail(false, End, f);
    }
  }
}
