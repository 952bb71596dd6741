// Evaluation of a postfix form with a stack whose entries are values or keys not looked up yet.
module BoolMachine {
  import opened Wrappers
  import opened BoolGrammar
  import opened ShuntingYard

  // A stack entry: a value, or a key whose value is asked for only when it is needed.
  datatype Ret = Done(ret: bool) | Later(key: string)

  function Force(r: Ret, f: string -> bool): bool {
    match r
    case Done(b) => b
    case Later(k) => f(k)
  }

  // The value of a tree, every key looked up.
  function Eval(e: Exp, f: string -> bool): bool {
    EvalTail(EvalUnary(e.first, f), e.rest, f)
  }

  function EvalUnary(u: Unary, f: string -> bool): bool {
    match u
    case Key(k) => f(k)
    case Not(v) => !EvalUnary(v, f)
    case Paren(e) => Eval(e, f)
  }

  function EvalTail(acc: bool, t: Tail, f: string -> bool): bool
    decreases t
  {
    match t
    case End => acc
    case More(op, u, r) =>
      EvalTail(if op == '&' then acc && EvalUnary(u, f) else acc || EvalUnary(u, f), r, f)
  }

  // ---------------------------------------------------------------- the stack machine

  function Last(st: seq<Ret>): Ret
    requires st != []
  {
    st[|st| - 1]
  }

  function Rest(st: seq<Ret>): seq<Ret>
    requires st != []
  {
    st[..|st| - 1]
  }

  // One token; None is a look at, or a pop from, an empty stack.
  function Exec(st: seq<Ret>, token: string, f: string -> bool): Option<seq<Ret>> {
    if token == "!" then
      if st == [] then None else Some(Rest(st) + [Done(!Force(Last(st), f))])
    else if token == "&" then
      if |st| < 2 then None
      else if !Force(Last(st), f) then Some(Rest(Rest(st)) + [Done(false)])
      else Some(Rest(Rest(st)) + [Done(Force(Last(Rest(st)), f))])
    else if token == "|" then
      if |st| < 2 then None
      else if Force(Last(st), f) then Some(Rest(Rest(st)) + [Done(true)])
      else Some(Rest(Rest(st)) + [Done(Force(Last(Rest(st)), f))])
    else Some(st + [Later(token)])
  }

  function Run(st: seq<Ret>, code: seq<string>, f: string -> bool): Option<seq<Ret>>
    decreases |code|
  {
    if code == [] then Some(st)
    else
      var r := Exec(st, code[0], f);
      if r.None? then None else Run(r.value, code[1..], f)
  }

  lemma {:induction false} RunConcat(st: seq<Ret>, a: seq<string>, b: seq<string>, f: string -> bool)
    requires Run(st, a, f).Some?
    ensures Run(st, a + b, f) == Run(Run(st, a, f).value, b, f)
    decreases |a|
  {
    if a == [] {
      assert a + b == b;
    } else {
      assert (a + b)[1..] == a[1..] + b;
      RunConcat(Exec(st, a[0], f).value, a[1..], b, f);
    }
  }

  lemma RunOne(st: seq<Ret>, token: string, f: string -> bool)
    ensures Run(st, [token], f) == Exec(st, token, f)
  {
    assert [token][1..] == [];
  }

  // The entry an operand leaves behind.
  function Entry(u: Unary, f: string -> bool): Ret {
    match u
    case Key(k) => Later(k)
    case Not(v) => Done(!EvalUnary(v, f))
    case Paren(e) => TailEntry(Entry(e.first, f), e.rest, f)
  }

  function TailEntry(acc: Ret, t: Tail, f: string -> bool): Ret
    decreases t
  {
    match t
    case End => acc
    case More(op, u, r) =>
      TailEntry(Done(if op == '&' then Force(acc, f) && EvalUnary(u, f) else Force(acc, f) || EvalUnary(u, f)), r, f)
  }

  // Every operand of the tree leaves one entry on the stack, with the value of the operand.
  lemma {:induction false} UnaryRuns(u: Unary, st: seq<Ret>, f: string -> bool)
    requires ValidUnary(u)
    ensures Run(st, PostfixUnary(u), f) == Some(st + [Entry(u, f)])
    ensures Force(Entry(u, f), f) == EvalUnary(u, f)
    decreases u
  {
    match u
    case Key(k) =>
      RunOne(st, k, f);
      NotOperator(k);
    case Not(v) =>
      UnaryRuns(v, st, f);
      RunConcat(st, PostfixUnary(v), ["!"], f);
      RunOne(st + [Entry(v, f)], "!", f);
      assert Rest(st + [Entry(v, f)]) == st;
    case Paren(e) =>
      UnaryRuns(e.first, st, f);
      TailRuns(PostfixUnary(e.first), Entry(e.first, f), e.rest, st, f);
  }

  lemma NotOperator(k: string)
    requires ValidKey(k)
    ensures k != "!" && k != "&" && k != "|"
  {
    assert !Special(k[0]);
  }

  lemma {:induction false} TailRuns(code: seq<string>, acc: Ret, t: Tail, st: seq<Ret>, f: string -> bool)
    requires ValidTail(t) && Run(st, code, f) == Some(st + [acc])
    ensures Run(st, PostfixTail(code, t), f) == Some(st + [TailEntry(acc, t, f)])
    ensures Force(TailEntry(acc, t, f), f) == EvalTail(Force(acc, f), t, f)
    decreases t
  {
    hide Run, Exec;
    match t
    case End =>
    case More(op, u, r) =>
      UnaryRuns(u, st + [acc], f);
      RunConcat(st, code, PostfixUnary(u), f);
      RunConcat(st, code + PostfixUnary(u), [[op]], f);
      OperatorRuns(op, acc, u, st, f);
      var next := Done(if op == '&' then Force(acc, f) && EvalUnary(u, f) else Force(acc, f) || EvalUnary(u, f));
      TailRuns(code + PostfixUnary(u) + [[op]], next, r, st, f);
  }

  lemma OperatorRuns(op: char, acc: Ret, u: Unary, st: seq<Ret>, f: string -> bool)
    requires Operator(op) && Force(Entry(u, f), f) == EvalUnary(u, f)
    ensures Run(st + [acc] + [Entry(u, f)], [[op]], f)
         == Some(st + [Done(if op == '&' then Force(acc, f) && EvalUnary(u, f) else Force(acc, f) || EvalUnary(u, f))])
  {
    var full := st + [acc] + [Entry(u, f)];
    RunOne(full, [op], f);
    assert Rest(full) == st + [acc] && Rest(Rest(full)) == st;
    assert "&" == ['&'] && "|" == ['|'];
  }

  // The machine never underflows on a postfix form, leaves one entry, and its lazy value is the
  // eager value of the tree.
  lemma PostfixRuns(e: Exp, f: string -> bool)
    requires Valid(e)
    ensures exists r :: Run([], Postfix(e), f) == Some([r]) && Force(r, f) == Eval(e, f)
  {
    UnaryRuns(Paren(e), [], f);
    var r := Entry(Paren(e), f);
    assert [] + [r] == [r];
    assert Run([], Postfix(e), f) == Some([r]) && Force(r, f) == Eval(e, f);
  }

  // ---------------------------------------------------------------- the answer

  // Lookup of keys is a pure function here. NotSet is the exception for a missing lookup
  // function, Underflow a look at an empty stack.
  datatype Outcome = Value(b: bool) | Invalid | NotSet | Underflow

  function Answer(r: Option<seq<Ret>>, f: string -> bool): Outcome {
    if r.None? || r.value == [] then Underflow else Value(Force(Last(r.value), f))
  }
}
