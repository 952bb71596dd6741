// What evaluation makes of the translation of any accepted expression. In a run of ! all but the
// last are executed ahead of their operand, on the entry that happens to be on top of the stack.
module BoolEffect {
  import opened Wrappers
  import opened BoolGrammar
  import opened ShuntingYard
  import opened BoolMachine

  // ---------------------------------------------------------------- the effect, along the tree

  // How many ! the translation of an operand executes before its first key.
  function Flips(u: Unary): nat {
    match u
    case Key(_) => 0
    case Not(v) => FlipsAfter(v)
    case Paren(e) => Flips(e.first)
  }

  function FlipsAfter(v: Unary): nat {
    match v
    case Key(_) => 0
    case Not(w) => 1 + FlipsAfter(w)
    case Paren(e) => Flips(e.first)
  }

  function Flip(b: bool, n: nat): bool {
    if n % 2 == 0 then b else !b
  }

  // The value that an operand leaves behind: any number of ! before it counts as one.
  function Actual(u: Unary, f: string -> bool): bool {
    match u
    case Key(k) => f(k)
    case Not(v) => !ActualBase(v, f)
    case Paren(e) => ActualTail(Actual(e.first, f), e.rest, f)
  }

  function ActualBase(v: Unary, f: string -> bool): bool {
    match v
    case Key(k) => f(k)
    case Not(w) => ActualBase(w, f)
    case Paren(e) => ActualTail(Actual(e.first, f), e.rest, f)
  }

  // The ! in front of a right operand are spent on the left one.
  function ActualTail(acc: bool, t: Tail, f: string -> bool): bool
    decreases t
  {
    match t
    case End => acc
    case More(op, u, r) =>
      var left := Flip(acc, Flips(u));
      ActualTail(if op == '&' then left && Actual(u, f) else left || Actual(u, f), r, f)
  }

  function ActualValue(e: Exp, f: string -> bool): bool {
    ActualTail(Actual(e.first, f), e.rest, f)
  }

  // ---------------------------------------------------------------- the machine does that

  // The top entry after n times !.
  function FlipEntry(r: Ret, n: nat, f: string -> bool): Ret
    decreases n
  {
    if n == 0 then r else FlipEntry(Done(!Force(r, f)), n - 1, f)
  }

  function FlipTop(st: seq<Ret>, n: nat, f: string -> bool): seq<Ret>
    requires n == 0 || st != []
  {
    if n == 0 then st else Rest(st) + [FlipEntry(Last(st), n, f)]
  }

  lemma {:induction false} FlipEntryForces(r: Ret, n: nat, f: string -> bool)
    ensures Force(FlipEntry(r, n, f), f) == Flip(Force(r, f), n)
    decreases n
  {
    if n > 0 {
      FlipEntryForces(Done(!Force(r, f)), n - 1, f);
    }
  }

  lemma FlipOnce(st: seq<Ret>, n: nat, f: string -> bool)
    requires st != []
    ensures Exec(st, "!", f) == Some(FlipTop(st, 1, f)) && FlipTop(st, 1, f) != []
    ensures FlipTop(FlipTop(st, 1, f), n, f) == FlipTop(st, n + 1, f)
  {
    var once := Done(!Force(Last(st), f));
    assert FlipEntry(Last(st), 1, f) == FlipEntry(once, 0, f) == once;
    var st1 := Rest(st) + [once];
    assert Rest(st1) == Rest(st) && Last(st1) == once;
  }

  lemma {:induction false} AfterNotRuns(v: Unary, st: seq<Ret>, f: string -> bool) returns (r: Ret)
    requires ValidUnary(v) && (FlipsAfter(v) == 0 || st != [])
    ensures Run(st, AfterNot(v), f) == Some(FlipTop(st, FlipsAfter(v), f) + [r])
    ensures Force(r, f) == ActualBase(v, f)
    decreases v, 0
  {
    hide Exec;
    match v
    case Key(k) =>
      r := Later(k);
      KeyRuns(k, st, f);
    case Not(w) =>
      FlipOnce(st, FlipsAfter(w), f);
      r := AfterNotRuns(w, FlipTop(st, 1, f), f);
      RunOne(st, "!", f);
      RunConcat(st, ["!"], AfterNot(w), f);
    case Paren(e) =>
      r := ExpRuns(e, st, f);
  }

  lemma KeyRuns(k: string, st: seq<Ret>, f: string -> bool)
    requires ValidKey(k)
    ensures Run(st, [k], f) == Some(st + [Later(k)])
  {
    RunOne(st, k, f);
    NotOperator(k);
  }

  lemma NotRuns(st: seq<Ret>, r: Ret, f: string -> bool)
    ensures Run(st + [r], ["!"], f) == Some(st + [Done(!Force(r, f))])
  {
    RunOne(st + [r], "!", f);
    assert Rest(st + [r]) == st;
  }

  lemma {:induction false} OperandRuns(u: Unary, st: seq<Ret>, f: string -> bool) returns (r: Ret)
    requires ValidUnary(u) && (Flips(u) == 0 || st != [])
    ensures Run(st, CompiledUnary(u), f) == Some(FlipTop(st, Flips(u), f) + [r])
    ensures Force(r, f) == Actual(u, f)
    decreases u, 1
  {
    hide Exec;
    match u
    case Key(k) =>
      r := Later(k);
      KeyRuns(k, st, f);
    case Not(v) =>
      var x := AfterNotRuns(v, st, f);
      r := Done(!Force(x, f));
      RunConcat(st, AfterNot(v), ["!"], f);
      NotRuns(FlipTop(st, Flips(u), f), x, f);
    case Paren(e) =>
      r := ExpRuns(e, st, f);
  }

  lemma {:induction false} ExpRuns(e: Exp, st: seq<Ret>, f: string -> bool) returns (r: Ret)
    requires Valid(e) && (Flips(e.first) == 0 || st != [])
    ensures Run(st, Compiled(e), f) == Some(FlipTop(st, Flips(e.first), f) + [r])
    ensures Force(r, f) == ActualValue(e, f)
    decreases e, 0
  {
    hide Run;
    r := OperandRuns(e.first, st, f);
    r := RestRuns(CompiledUnary(e.first), st, FlipTop(st, Flips(e.first), f), r, e.rest, f);
  }

  lemma {:induction false} RestRuns(code: seq<string>, st0: seq<Ret>, st: seq<Ret>, acc: Ret, t: Tail, f: string -> bool)
      returns (r: Ret)
    requires ValidTail(t) && Run(st0, code, f) == Some(st + [acc])
    ensures Run(st0, CompiledTail(code, t), f) == Some(st + [r])
    ensures Force(r, f) == ActualTail(Force(acc, f), t, f)
    decreases t, 2
  {
    hide Run, Exec;
    match t
    case End =>
      r := acc;
    case More(op, u, rest) =>
      var x := OperandRuns(u, st + [acc], f);
      var left := FlipEntry(acc, Flips(u), f);
      FlipPushed(st, acc, Flips(u), f);
      RunConcat(st0, code, CompiledUnary(u), f);
      RunConcat(st0, code + CompiledUnary(u), [[op]], f);
      var next := BinaryRuns(op, left, x, st, f);
      FlipEntryForces(acc, Flips(u), f);
      r := RestRuns(code + CompiledUnary(u) + [[op]], st0, st, next, rest, f);
  }

  lemma FlipPushed(st: seq<Ret>, acc: Ret, n: nat, f: string -> bool)
    ensures FlipTop(st + [acc], n, f) == st + [FlipEntry(acc, n, f)]
  {
    assert Rest(st + [acc]) == st;
  }

  lemma BinaryRuns(op: char, left: Ret, right: Ret, st: seq<Ret>, f: string -> bool) returns (r: Ret)
    requires Operator(op)
    ensures Run(st + [left] + [right], [[op]], f) == Some(st + [r])
    ensures Force(r, f) == if op == '&' then Force(left, f) && Force(right, f) else Force(left, f) || Force(right, f)
  {
    var full := st + [left] + [right];
    RunOne(full, [op], f);
    assert Rest(full) == st + [left] && Rest(Rest(full)) == st;
    assert "&" == ['&'] && "|" == ['|'];
    r := Done(if op == '&' then Force(left, f) && Force(right, f) else Force(left, f) || Force(right, f));
  }

  // ---------------------------------------------------------------- when the stack is empty

  // Two ! next to each other before the first key.
  ghost predicate LeadingDouble(s: string) {
    exists i :: DoubleAt(s, i) && forall j :: 0 <= j < i ==> Special(s[j])
  }

  predicate DoubleAt(s: string, i: int) {
    0 <= i < |s| - 1 && s[i] == '!' && s[i + 1] == '!'
  }

  lemma LeadingBehind(c: char, s: string)
    requires s != "" && Special(c) && !(c == '!' && s[0] == '!')
    ensures LeadingDouble([c] + s) <==> LeadingDouble(s)
  {
    var t := [c] + s;
    if LeadingDouble(s) {
      var i :| DoubleAt(s, i) && forall j :: 0 <= j < i ==> Special(s[j]);
      assert DoubleAt(t, i + 1);
      assert forall j :: 0 <= j < i + 1 ==> Special(t[j]);
    }
    if LeadingDouble(t) {
      var i :| DoubleAt(t, i) && forall j :: 0 <= j < i ==> Special(t[j]);
      assert DoubleAt(s, i - 1);
      forall j | 0 <= j < i - 1
        ensures Special(s[j])
      {
        assert t[j + 1] == s[j];
      }
    }
  }

  lemma NotLeading(s: string)
    requires s != "" && !Special(s[0])
    ensures !LeadingDouble(s)
  {}

  lemma LeadingPair(s: string)
    requires s != "" && s[0] == '!'
    ensures LeadingDouble("!" + s)
  {
    assert DoubleAt("!" + s, 0);
  }

  // The translation executes a ! before the first key exactly when the string has such a pair.
  lemma {:induction false} LeadingFlips(u: Unary, rest: string)
    requires ValidUnary(u)
    ensures LeadingDouble(UnaryText(u) + rest) <==> Flips(u) > 0
    decreases u
  {
    hide LeadingDouble;
    FirstChar(u);
    match u
    case Key(k) =>
      NotLeading(k + rest);
    case Not(v) =>
      FirstChar(v);
      assert UnaryText(u) + rest == "!" + (UnaryText(v) + rest);
      if v.Not? {
        LeadingPair(UnaryText(v) + rest);
      } else {
        LeadingFlips(v, rest);
        LeadingBehind('!', UnaryText(v) + rest);
      }
    case Paren(e) =>
      FirstChar(e.first);
      var s := UnaryText(e.first) + (TailText(e.rest) + ")" + rest);
      assert UnaryText(u) + rest == "(" + s;
      LeadingFlips(e.first, TailText(e.rest) + ")" + rest);
      LeadingBehind('(', s);
  }

  // Then the first token is that !.
  lemma {:induction false} FlipsComeFirst(u: Unary)
    ensures CompiledUnary(u) != [] && AfterNot(u) != []
    ensures Flips(u) > 0 ==> CompiledUnary(u)[0] == "!"
    ensures FlipsAfter(u) > 0 ==> AfterNot(u)[0] == "!"
  {
    match u
    case Key(_) =>
    case Not(v) =>
      FlipsComeFirst(v);
    case Paren(e) =>
      FlipsComeFirst(e.first);
      CompiledStarts(CompiledUnary(e.first), e.rest);
  }

  lemma {:induction false} CompiledStarts(acc: seq<string>, t: Tail)
    requires acc != []
    ensures CompiledTail(acc, t) != [] && CompiledTail(acc, t)[0] == acc[0]
    decreases t
  {
    match t
    case End =>
    case More(op, u, r) => CompiledStarts(acc + CompiledUnary(u) + [[op]], r);
  }

  // What the machine answers to the translation of any accepted expression.
  lemma AnswerIs(e: Exp, f: string -> bool)
    requires Valid(e)
    ensures Answer(Run([], Compiled(e), f), f)
         == if LeadingDouble(Text(e)) then Underflow else Value(ActualValue(e, f))
  {
    hide LeadingDouble;
    LeadingFlips(e.first, TailText(e.rest));
    if Flips(e.first) > 0 {
      FlipsComeFirst(Paren(e));
      assert Exec([], "!", f).None?;
    } else {
      var r := ExpRuns(e, [], f);
      assert [] + [r] == [r];
    }
  }

  // ---------------------------------------------------------------- when the value is right

  // s[i..j] is a run of ! that cannot be extended.
  predicate IsRun(s: string, i: int, j: int) {
    0 <= i < j <= |s| && (forall k :: i <= k < j ==> s[k] == '!')
    && (i > 0 ==> s[i - 1] != '!') && (j < |s| ==> s[j] != '!')
  }

  ghost predicate OddRuns(s: string) {
    forall i, j :: IsRun(s, i, j) ==> (j - i) % 2 == 1
  }

  // The same along the tree: as many Not on top of each other each time.
  predicate OddNots(e: Exp) {
    OddNotsUnary(e.first) && OddNotsTail(e.rest)
  }

  predicate OddNotsUnary(u: Unary) {
    match u
    case Key(_) => true
    case Not(v) => if v.Not? then v.u.Not? && OddNotsUnary(v.u) else OddNotsUnary(v)
    case Paren(e) => OddNots(e)
  }

  predicate OddNotsTail(t: Tail) {
    match t
    case End => true
    case More(_, u, r) => OddNotsUnary(u) && OddNotsTail(r)
  }

  lemma RunLeft(a: string, b: string, i: int, j: int)
    requires EndsPlain(a) || b == "" || b[0] != '!'
    requires IsRun(a, i, j)
    ensures IsRun(a + b, i, j)
  {
    assert forall k :: 0 <= k < |a| ==> (a + b)[k] == a[k];
    if j == |a| && b != "" {
      assert a[j - 1] == '!';
      assert (a + b)[j] == b[0];
    }
  }

  lemma RunRight(a: string, b: string, i: int, j: int)
    requires EndsPlain(a) || b == "" || b[0] != '!'
    requires IsRun(b, i, j)
    ensures IsRun(a + b, |a| + i, |a| + j)
  {
    assert forall k :: 0 <= k < |b| ==> (a + b)[|a| + k] == b[k];
    if i == 0 && a != "" {
      assert b[0] == '!' && (a + b)[|a| - 1] == a[|a| - 1];
    }
    forall k | |a| + i <= k < |a| + j
      ensures (a + b)[k] == '!'
    {
      assert (a + b)[k] == b[k - |a|];
    }
  }

  lemma RunSplits(a: string, b: string, i: int, j: int)
    requires EndsPlain(a) || b == "" || b[0] != '!'
    requires IsRun(a + b, i, j)
    ensures IsRun(a, i, j) || IsRun(b, i - |a|, j - |a|)
  {
    assert forall k :: 0 <= k < |a| ==> (a + b)[k] == a[k];
    assert forall k :: 0 <= k < |b| ==> (a + b)[|a| + k] == b[k];
    if a == "" || b == "" {
    } else if EndsPlain(a) {
      assert (a + b)[|a| - 1] != '!';
    } else {
      assert (a + b)[|a|] != '!';
    }
    assert j <= |a| || |a| <= i;
    if i >= |a| {
      forall k | i - |a| <= k < j - |a|
        ensures b[k] == '!'
      {
        assert (a + b)[|a| + k] == '!';
      }
    }
  }

  // Joining at a seam that is not between two ! joins no runs.
  lemma OddAcross(a: string, b: string)
    requires EndsPlain(a) || b == "" || b[0] != '!'
    ensures OddRuns(a + b) <==> OddRuns(a) && OddRuns(b)
  {
    hide IsRun;
    forall i, j | IsRun(a, i, j)
      ensures IsRun(a + b, i, j)
    {
      RunLeft(a, b, i, j);
    }
    forall i, j | IsRun(b, i, j)
      ensures IsRun(a + b, |a| + i, |a| + j)
    {
      RunRight(a, b, i, j);
    }
    if OddRuns(a + b) {
      forall i, j | IsRun(b, i, j)
        ensures (j - i) % 2 == 1
      {
        assert IsRun(a + b, |a| + i, |a| + j);
      }
    }
    if OddRuns(a) && OddRuns(b) {
      forall i, j | IsRun(a + b, i, j)
        ensures (j - i) % 2 == 1
      {
        RunSplits(a, b, i, j);
      }
    }
  }

  // Two more ! in front of a run change nothing.
  lemma TwoMoreBack(s: string, i: int, j: int)
    requires s != "" && s[0] == '!' && IsRun("!!" + s, i, j)
    ensures IsRun(s, if i == 0 then 0 else i - 2, j - 2)
  {
    var t := "!!" + s;
    assert forall k :: 0 <= k < |s| ==> t[2 + k] == s[k];
    assert t[0] == '!' && t[1] == '!' && t[2] == '!';
    assert i == 0 ==> j > 2;
    forall k | (if i == 0 then 0 else i - 2) <= k < j - 2
      ensures s[k] == '!'
    {
      assert t[2 + k] == '!';
    }
  }

  lemma TwoMoreForth(s: string, i: int, j: int)
    requires s != "" && s[0] == '!' && IsRun(s, i, j)
    ensures IsRun("!!" + s, if i == 0 then 0 else i + 2, j + 2)
  {
    var t := "!!" + s;
    assert forall k :: 2 <= k < |t| ==> t[k] == s[k - 2];
  }

  lemma OddTwoMore(s: string)
    requires s != "" && s[0] == '!'
    ensures OddRuns("!!" + s) <==> OddRuns(s)
  {
    hide IsRun;
    if OddRuns("!!" + s) {
      forall i, j | IsRun(s, i, j)
        ensures (j - i) % 2 == 1
      {
        TwoMoreForth(s, i, j);
      }
    }
    if OddRuns(s) {
      forall i, j | IsRun("!!" + s, i, j)
        ensures (j - i) % 2 == 1
      {
        TwoMoreBack(s, i, j);
      }
    }
  }

  lemma TwoAreEven(s: string)
    requires s == "" || s[0] != '!'
    ensures !OddRuns("!!" + s)
  {
    assert IsRun("!!" + s, 0, 2);
  }

  lemma NoRuns(s: string)
    requires forall i :: 0 <= i < |s| ==> s[i] != '!'
    ensures OddRuns(s)
  {
    forall i, j
      ensures !IsRun(s, i, j)
    {
      if 0 <= i < |s| {
        assert s[i] != '!';
      }
    }
  }

  lemma OneRun()
    ensures OddRuns("!")
  {}

  lemma {:induction false} UnaryOdd(u: Unary)
    requires ValidUnary(u)
    ensures OddRuns(UnaryText(u)) <==> OddNotsUnary(u)
    decreases u, 1
  {
    hide OddRuns;
    match u
    case Key(k) =>
      NoRuns(k);
    case Not(v) =>
      FirstChar(v);
      if v.Not? {
        FirstChar(v.u);
        assert UnaryText(u) == "!!" + UnaryText(v.u);
        if v.u.Not? {
          UnaryOdd(v.u);
          OddTwoMore(UnaryText(v.u));
        } else {
          TwoAreEven(UnaryText(v.u));
        }
      } else {
        UnaryOdd(v);
        OneRun();
        OddAcross("!", UnaryText(v));
      }
    case Paren(e) =>
      ExpOdd(e);
      NoRuns("(");
      NoRuns(")");
      OddAcross("(", Text(e));
      OddAcross("(" + Text(e), ")");
  }

  lemma {:induction false} TailOdd(t: Tail)
    requires ValidTail(t)
    ensures OddRuns(TailText(t)) <==> OddNotsTail(t)
    decreases t, 2
  {
    hide OddRuns;
    match t
    case End =>
      NoRuns("");
    case More(op, u, r) =>
      UnaryOdd(u);
      UnaryEndsPlain(u);
      FirstChar(u);
      TailOdd(r);
      NoRuns([op]);
      OddAcross([op], UnaryText(u));
      assert EndsPlain([op] + UnaryText(u));
      OddAcross([op] + UnaryText(u), TailText(r));
  }

  lemma {:induction false} ExpOdd(e: Exp)
    requires Valid(e)
    ensures OddRuns(Text(e)) <==> OddNots(e)
    decreases e, 0
  {
    hide OddRuns;
    UnaryOdd(e.first);
    UnaryEndsPlain(e.first);
    TailOdd(e.rest);
    OddAcross(UnaryText(e.first), TailText(e.rest));
  }

  // Odd runs count as one !, and what is left of them is spent in pairs.
  lemma {:induction false} OddUnaryRight(u: Unary, f: string -> bool)
    requires OddNotsUnary(u)
    ensures Flips(u) % 2 == 0 && Actual(u, f) == EvalUnary(u, f)
    decreases u
  {
    match u
    case Key(_) =>
    case Not(v) =>
      if v.Not? {
        OddUnaryRight(v.u, f);
        SkipTwo(v.u, f);
      } else {
        OddUnaryRight(v, f);
        assert FlipsAfter(v) == Flips(v) && ActualBase(v, f) == Actual(v, f);
      }
    case Paren(e) =>
      OddUnaryRight(e.first, f);
      OddTailRight(Actual(e.first, f), e.rest, f);
  }

  lemma SkipTwo(u: Unary, f: string -> bool)
    requires u.Not?
    ensures Flips(Not(Not(u))) == Flips(u) + 2 && Actual(Not(Not(u)), f) == Actual(u, f)
    ensures EvalUnary(Not(Not(u)), f) == EvalUnary(u, f)
  {
    assert FlipsAfter(Not(u)) == 1 + FlipsAfter(u) == 2 + FlipsAfter(u.u);
    assert ActualBase(Not(u), f) == ActualBase(u, f) == ActualBase(u.u, f);
    assert EvalUnary(Not(u), f) == !EvalUnary(u, f);
  }

  lemma {:induction false} OddTailRight(acc: bool, t: Tail, f: string -> bool)
    requires OddNotsTail(t)
    ensures ActualTail(acc, t, f) == EvalTail(acc, t, f)
    decreases t
  {
    match t
    case End =>
    case More(op, u, r) =>
      OddUnaryRight(u, f);
      OddTailRight(if op == '&' then acc && EvalUnary(u, f) else acc || EvalUnary(u, f), r, f);
  }

  // With odd runs only, the value is that of the tree for all values of the keys.
  lemma OddRunsRight(e: Exp, f: string -> bool)
    requires Valid(e) && OddRuns(Text(e))
    ensures ActualValue(e, f) == Eval(e, f)
  {
    hide OddRuns;
    ExpOdd(e);
    OddUnaryRight(e.first, f);
    OddTailRight(Actual(e.first, f), e.rest, f);
  }

  lemma SingleIsOdd(s: string)
    requires !DoubleNot(s)
    ensures OddRuns(s) && !LeadingDouble(s)
  {
    forall i, j | IsRun(s, i, j)
      ensures j - i == 1
    {
      if i + 1 < |s| {
        assert s[i] == '!' && s[i + 1] != '!';
      }
    }
  }
}
