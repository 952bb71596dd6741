// Translation of a boolean expression to postfix form with an operator stack. What comes out is
// characterised for every expression; it is the postfix form of the tree exactly when no two !
// stand next to each other.
module ShuntingYard {
  import opened Wrappers
  import opened BoolGrammar

  function Priority(c: char): nat {
    match c
    case '(' => 1
    case '|' => 2
    case '&' => 2
    case '!' => 3
    case ')' => 4
    case _ => 0
  }

  // ---------------------------------------------------------------- the stack machine

  // Operator stack and output; None stands for a pop from the empty stack.
  datatype Stacks = Stacks(st: string, qu: seq<string>)

  function Top(st: string): char
    requires st != ""
  {
    st[|st| - 1]
  }

  function Popped(st: string): string
    requires st != ""
  {
    st[..|st| - 1]
  }

  // Moves operators to the output down to the given mark.
  function PopTo(mark: char, st: string, qu: seq<string>): Option<Stacks>
    decreases |st|
  {
    if st == "" then None
    else if Top(st) == mark then Some(Stacks(st, qu))
    else PopTo(mark, Popped(st), qu + [[Top(st)]])
  }

  // Moves operators to the output as long as they bind at least as tightly as p.
  function PopWhile(p: nat, st: string, qu: seq<string>): Option<Stacks>
    decreases |st|
  {
    if st == "" then None
    else if p <= Priority(Top(st)) then PopWhile(p, Popped(st), qu + [[Top(st)]])
    else Some(Stacks(st, qu))
  }

  // The output after the rest s of the expression.
  function Shunt(st: string, qu: seq<string>, s: string): Option<seq<string>>
    decreases |s|
  {
    if s == "" then
      var r := PopTo('#', st, qu);
      if r.None? then None else Some(r.value.qu)
    else if s[0] == '(' then Shunt(st + "(", qu, s[1..])
    else if s[0] == ')' then
      var r := PopTo('(', st, qu);
      if r.None? || r.value.st == "" then None else Shunt(Popped(r.value.st), r.value.qu, s[1..])
    else if Special(s[0]) then
      var r := PopWhile(Priority(s[0]), st, qu);
      if r.None? then None else Shunt(r.value.st + [s[0]], r.value.qu, s[1..])
    else
      assert KeyLength(s) > 0;
      Shunt(st, qu + [s[..KeyLength(s)]], s[KeyLength(s)..])
  }

  // ---------------------------------------------------------------- postfix forms

  // The postfix form of a tree.
  function Postfix(e: Exp): seq<string> {
    PostfixTail(PostfixUnary(e.first), e.rest)
  }

  function PostfixUnary(u: Unary): seq<string> {
    match u
    case Key(k) => [k]
    case Not(v) => PostfixUnary(v) + ["!"]
    case Paren(e) => Postfix(e)
  }

  function PostfixTail(acc: seq<string>, t: Tail): seq<string>
    decreases t
  {
    match t
    case End => acc
    case More(op, u, r) => PostfixTail(acc + PostfixUnary(u) + [[op]], r)
  }

  // What the translation puts out: of a run of !, all but one come before their operand.
  function Compiled(e: Exp): seq<string> {
    CompiledTail(CompiledUnary(e.first), e.rest)
  }

  function CompiledUnary(u: Unary): seq<string> {
    match u
    case Key(k) => [k]
    case Not(v) => AfterNot(v) + ["!"]
    case Paren(e) => Compiled(e)
  }

  function AfterNot(v: Unary): seq<string> {
    match v
    case Key(k) => [k]
    case Not(w) => ["!"] + AfterNot(w)
    case Paren(e) => Compiled(e)
  }

  function CompiledTail(acc: seq<string>, t: Tail): seq<string>
    decreases t
  {
    match t
    case End => acc
    case More(op, u, r) => CompiledTail(acc + CompiledUnary(u) + [[op]], r)
  }

  // ---------------------------------------------------------------- the machine follows the tree

  // Of an operand: what is in the output once it is read, and what is still on the stack.
  function Emitted(u: Unary): seq<string> {
    match u
    case Key(k) => [k]
    case Not(v) => AfterNot(v)
    case Paren(e) => Compiled(e)
  }

  function Pending(u: Unary): string {
    if u.Not? then "!" else ""
  }

  function Unwound(pend: string): seq<string> {
    if pend == "" then [] else [[Top(pend)]] + Unwound(Popped(pend))
  }

  predicate AllPending(pend: string) {
    forall i :: 0 <= i < |pend| ==> pend[i] == '!' || Operator(pend[i])
  }

  lemma {:induction false} PopPendingWhile(st: string, pend: string, qu: seq<string>)
    requires st != "" && Priority(Top(st)) < 2 && AllPending(pend)
    ensures PopWhile(2, st + pend, qu) == Some(Stacks(st, qu + Unwound(pend)))
    decreases |pend|
  {
    if pend == "" {
      assert st + pend == st && qu + [] == qu;
    } else {
      StackTop(st, pend);
      PopPendingWhile(st, Popped(pend), qu + [[Top(pend)]]);
      assert qu + [[Top(pend)]] + Unwound(Popped(pend)) == qu + Unwound(pend);
    }
  }

  lemma {:induction false} PopPendingTo(mark: char, st: string, pend: string, qu: seq<string>)
    requires st != "" && Top(st) == mark && AllPending(pend) && mark != '!' && !Operator(mark)
    ensures PopTo(mark, st + pend, qu) == Some(Stacks(st, qu + Unwound(pend)))
    decreases |pend|
  {
    if pend == "" {
      assert st + pend == st && qu + [] == qu;
    } else {
      StackTop(st, pend);
      PopPendingTo(mark, st, Popped(pend), qu + [[Top(pend)]]);
      assert qu + [[Top(pend)]] + Unwound(Popped(pend)) == qu + Unwound(pend);
    }
  }

  lemma StackTop(st: string, pend: string)
    requires pend != ""
    ensures Top(st + pend) == Top(pend) && Popped(st + pend) == st + Popped(pend)
  {}

  lemma KeyShunts(k: string, st: string, qu: seq<string>, rest: string)
    requires ValidKey(k) && Stops(rest)
    ensures Shunt(st, qu, k + rest) == Shunt(st, qu + [k], rest)
  {
    KeyLengthIs(k, rest);
    assert (k + rest)[..|k|] == k && (k + rest)[|k|..] == rest;
    assert (k + rest)[0] == k[0];
  }

  lemma {:induction false} KeyLengthIs(k: string, rest: string)
    requires KeyOnly(k) && Stops(rest)
    ensures KeyLength(k + rest) == |k|
  {
    if k == "" {
      assert k + rest == rest;
    } else {
      assert (k + rest)[1..] == k[1..] + rest;
      KeyLengthIs(k[1..], rest);
    }
  }

  // Reading ! from a stack that does not end in one.
  lemma NotPushes(st: string, qu: seq<string>, s: string)
    requires st != "" && Priority(Top(st)) <= 2
    ensures Shunt(st, qu, "!" + s) == Shunt(st + "!", qu, s)
  {
    assert ("!" + s)[1..] == s;
  }

  // Reading ! behind another one: that one goes to the output ahead of the operand.
  lemma NotPops(st: string, qu: seq<string>, s: string)
    requires st != "" && Priority(Top(st)) <= 2
    ensures Shunt(st + "!", qu, "!" + s) == Shunt(st + "!", qu + ["!"], s)
  {
    assert ("!" + s)[1..] == s;
    StackTop(st, "!");
    assert st + Popped("!") == st;
    assert PopWhile(3, st + "!", qu) == PopWhile(3, st, qu + [[Top("!")]]);
  }

  lemma {:induction false} UnaryShunts(u: Unary, st: string, qu: seq<string>, rest: string)
    requires ValidUnary(u) && Stops(rest) && st != "" && Priority(Top(st)) <= 2
    ensures Shunt(st, qu, UnaryText(u) + rest) == Shunt(st + Pending(u), qu + Emitted(u), rest)
    decreases u, 1
  {
    hide Shunt;
    assert st + "" == st;
    match u
    case Key(k) =>
      KeyShunts(k, st, qu, rest);
    case Not(v) =>
      assert UnaryText(u) + rest == "!" + (UnaryText(v) + rest);
      NotPushes(st, qu, UnaryText(v) + rest);
      NotShunts(v, st, qu, rest);
    case Paren(e) =>
      BracketShunts(e, st, qu, rest);
      assert UnaryText(u) + rest == "(" + (Text(e) + (")" + rest));
  }

  lemma {:induction false} NotShunts(v: Unary, st: string, qu: seq<string>, rest: string)
    requires ValidUnary(v) && Stops(rest) && st != "" && Priority(Top(st)) <= 2
    ensures Shunt(st + "!", qu, UnaryText(v) + rest) == Shunt(st + "!", qu + AfterNot(v), rest)
    decreases v, 0
  {
    hide Shunt;
    match v
    case Key(k) =>
      KeyShunts(k, st + "!", qu, rest);
    case Not(w) =>
      assert UnaryText(v) + rest == "!" + (UnaryText(w) + rest);
      NotPops(st, qu, UnaryText(w) + rest);
      NotShunts(w, st, qu + ["!"], rest);
      assert qu + ["!"] + AfterNot(w) == qu + AfterNot(v);
    case Paren(e) =>
      BracketShunts(e, st + "!", qu, rest);
      assert UnaryText(v) + rest == "(" + (Text(e) + (")" + rest));
  }

  lemma {:induction false} BracketShunts(e: Exp, st: string, qu: seq<string>, rest: string)
    requires Valid(e) && Stops(rest)
    ensures Shunt(st, qu, "(" + (Text(e) + (")" + rest))) == Shunt(st, qu + Compiled(e), rest)
    decreases e, 1
  {
    BracketOpens(st, qu, Text(e) + (")" + rest));
    hide Shunt;
    var pend, out := ExpShunts(e, st + "(", qu, ")" + rest);
    BracketCloses(st, pend, out, rest);
  }

  lemma BracketOpens(st: string, qu: seq<string>, s: string)
    ensures Shunt(st, qu, "(" + s) == Shunt(st + "(", qu, s)
  {
    assert ("(" + s)[1..] == s;
  }

  lemma BracketCloses(st: string, pend: string, qu: seq<string>, rest: string)
    requires AllPending(pend)
    ensures Shunt(st + "(" + pend, qu, ")" + rest) == Shunt(st, qu + Unwound(pend), rest)
  {
    PopPendingTo('(', st + "(", pend, qu);
    assert (")" + rest)[1..] == rest;
    assert Popped(st + "(") == st;
  }

  // A whole expression on top of an open bracket or the bottom mark: what is left pending
  // completes the output.
  lemma {:induction false} ExpShunts(e: Exp, st: string, qu: seq<string>, rest: string)
      returns (pend: string, out: seq<string>)
    requires Valid(e) && (rest == "" || rest[0] == ')') && st != "" && Priority(Top(st)) < 2
    ensures AllPending(pend) && out + Unwound(pend) == qu + Compiled(e)
    ensures Shunt(st, qu, Text(e) + rest) == Shunt(st + pend, out, rest)
    decreases e, 0
  {
    hide Shunt;
    var u := e.first;
    TailStops(e.rest, rest);
    assert Text(e) + rest == UnaryText(u) + (TailText(e.rest) + rest);
    UnaryShunts(u, st, qu, TailText(e.rest) + rest);
    pend, out := TailShunts(e.rest, st, Pending(u), qu + Emitted(u), rest);
    EmittedAndPending(u);
    assert qu + Emitted(u) + Unwound(Pending(u)) == qu + CompiledUnary(u);
    TailPrefix(qu, CompiledUnary(u), e.rest);
  }

  lemma EmittedAndPending(u: Unary)
    ensures Emitted(u) + Unwound(Pending(u)) == CompiledUnary(u)
  {
    assert Unwound("!") == ["!"] + Unwound("");
    assert CompiledUnary(u) + [] == CompiledUnary(u);
  }

  lemma {:induction false} TailPrefix(qu: seq<string>, acc: seq<string>, t: Tail)
    ensures CompiledTail(qu + acc, t) == qu + CompiledTail(acc, t)
    decreases t
  {
    match t
    case End =>
    case More(op, u, r) =>
      TailPrefix(qu, acc + CompiledUnary(u) + [[op]], r);
      assert qu + acc + CompiledUnary(u) + [[op]] == qu + (acc + CompiledUnary(u) + [[op]]);
  }

  lemma {:induction false} TailShunts(t: Tail, st: string, pend0: string, qu: seq<string>, rest: string)
      returns (pend: string, out: seq<string>)
    requires ValidTail(t) && (rest == "" || rest[0] == ')') && st != "" && Priority(Top(st)) < 2
    requires AllPending(pend0)
    ensures AllPending(pend) && out + Unwound(pend) == CompiledTail(qu + Unwound(pend0), t)
    ensures Shunt(st + pend0, qu, TailText(t) + rest) == Shunt(st + pend, out, rest)
    decreases t, 2
  {
    hide Shunt;
    match t
    case End =>
      pend, out := pend0, qu;
      assert "" + rest == rest;
    case More(op, u, r) =>
      var after := TailText(r) + rest;
      TailStops(r, rest);
      assert TailText(t) + rest == [op] + (UnaryText(u) + after);
      OperatorShunts(op, st, pend0, qu, UnaryText(u) + after);
      var qu1 := qu + Unwound(pend0);
      UnaryShunts(u, st + [op], qu1, after);
      assert st + [op] + Pending(u) == st + ([op] + Pending(u));
      pend, out := TailShunts(r, st, [op] + Pending(u), qu1 + Emitted(u), rest);
      PendingBehind(op, u, qu1);
  }

  lemma PendingBehind(op: char, u: Unary, qu: seq<string>)
    ensures qu + Emitted(u) + Unwound([op] + Pending(u)) == qu + CompiledUnary(u) + [[op]]
  {
    EmittedAndPending(u);
    assert Unwound([op]) == [[op]] + Unwound("") by { assert Popped([op]) == ""; }
    if u.Not? {
      assert Popped([op] + "!") == [op];
      assert Unwound([op] + "!") == ["!"] + [[op]];
    } else {
      assert [op] + "" == [op];
    }
    assert qu + (Emitted(u) + Unwound(Pending(u))) + [[op]] == qu + Emitted(u) + (Unwound(Pending(u)) + [[op]]);
  }

  lemma OperatorShunts(op: char, st: string, pend: string, qu: seq<string>, s: string)
    requires Operator(op) && st != "" && Priority(Top(st)) < 2 && AllPending(pend)
    ensures Shunt(st + pend, qu, [op] + s) == Shunt(st + [op], qu + Unwound(pend), s)
  {
    PopPendingWhile(st, pend, qu);
    assert ([op] + s)[1..] == s;
  }

  // The translation of the text of any tree.
  lemma ShuntCompiles(e: Exp)
    requires Valid(e)
    ensures Shunt("#", [], Text(e)) == Some(Compiled(e))
  {
    var pend, out := ExpShunts(e, "#", [], "");
    assert Text(e) + "" == Text(e);
    PopPendingTo('#', "#", pend, out);
    assert [] + Compiled(e) == Compiled(e);
  }

  // ---------------------------------------------------------------- when it is the postfix form

  // No ! directly under another one anywhere in the tree.
  predicate SingleNots(e: Exp) {
    SingleNotsUnary(e.first) && SingleNotsTail(e.rest)
  }

  predicate SingleNotsUnary(u: Unary) {
    match u
    case Key(_) => true
    case Not(v) => !v.Not? && SingleNotsUnary(v)
    case Paren(e) => SingleNots(e)
  }

  predicate SingleNotsTail(t: Tail) {
    match t
    case End => true
    case More(_, u, r) => SingleNotsUnary(u) && SingleNotsTail(r)
  }

  lemma {:induction false} UnaryLengths(u: Unary)
    ensures |CompiledUnary(u)| == |PostfixUnary(u)| > 0 && |AfterNot(u)| == |PostfixUnary(u)|
    decreases u
  {
    match u
    case Key(_) =>
    case Not(v) => UnaryLengths(v);
    case Paren(e) =>
      UnaryLengths(e.first);
      TailLengths(CompiledUnary(e.first), PostfixUnary(e.first), e.rest);
  }

  lemma {:induction false} TailLengths(a: seq<string>, b: seq<string>, t: Tail)
    requires |a| == |b|
    ensures |CompiledTail(a, t)| == |PostfixTail(b, t)| >= |a|
    decreases t
  {
    match t
    case End =>
    case More(op, u, r) =>
      UnaryLengths(u);
      TailLengths(a + CompiledUnary(u) + [[op]], b + PostfixUnary(u) + [[op]], r);
  }

  // The first token of a postfix form is a key.
  lemma {:induction false} StartsWithKey(u: Unary)
    requires ValidUnary(u)
    ensures PostfixUnary(u) != [] && ValidKey(PostfixUnary(u)[0])
    decreases u
  {
    match u
    case Key(_) =>
    case Not(v) => StartsWithKey(v);
    case Paren(e) =>
      StartsWithKey(e.first);
      TailStarts(PostfixUnary(e.first), e.rest);
  }

  lemma {:induction false} TailStarts(acc: seq<string>, t: Tail)
    requires acc != []
    ensures PostfixTail(acc, t) != [] && PostfixTail(acc, t)[0] == acc[0]
    decreases t
  {
    match t
    case End =>
    case More(op, u, r) => TailStarts(acc + PostfixUnary(u) + [[op]], r);
  }

  lemma SplitEqual(a: seq<string>, b: seq<string>, c: seq<string>, d: seq<string>)
    requires |a| == |b|
    ensures a + c == b + d <==> a == b && c == d
  {
    assert (a + c)[..|a|] == a && (b + d)[..|b|] == b;
    assert (a + c)[|a|..] == c && (b + d)[|b|..] == d;
  }

  lemma {:induction false} UnaryAgrees(u: Unary)
    requires ValidUnary(u)
    ensures CompiledUnary(u) == PostfixUnary(u) <==> SingleNotsUnary(u)
    decreases u, 1
  {
    match u
    case Key(_) =>
    case Not(v) =>
      UnaryLengths(v);
      SplitEqual(AfterNot(v), PostfixUnary(v), ["!"], ["!"]);
      if v.Not? {
        StartsWithKey(v);
        assert AfterNot(v)[0] == "!";
        assert Special("!"[0]) && !ValidKey("!");
      } else {
        UnaryAgrees(v);
      }
    case Paren(e) =>
      ExpAgrees(e);
  }

  lemma {:induction false} TailAgrees(a: seq<string>, b: seq<string>, t: Tail)
    requires ValidTail(t) && |a| == |b|
    ensures CompiledTail(a, t) == PostfixTail(b, t) <==> a == b && SingleNotsTail(t)
    decreases t, 2
  {
    match t
    case End =>
    case More(op, u, r) =>
      UnaryLengths(u);
      UnaryAgrees(u);
      var c, d := CompiledUnary(u) + [[op]], PostfixUnary(u) + [[op]];
      SplitEqual(a, b, c, d);
      SplitEqual(CompiledUnary(u), PostfixUnary(u), [[op]], [[op]]);
      assert a + c == a + CompiledUnary(u) + [[op]] && b + d == b + PostfixUnary(u) + [[op]];
      TailAgrees(a + c, b + d, r);
  }

  lemma {:induction false} ExpAgrees(e: Exp)
    requires Valid(e)
    ensures Compiled(e) == Postfix(e) <==> SingleNots(e)
    decreases e, 0
  {
    UnaryLengths(e.first);
    UnaryAgrees(e.first);
    TailAgrees(CompiledUnary(e.first), PostfixUnary(e.first), e.rest);
  }

  // ---------------------------------------------------------------- the same, read off the string

  // Two ! next to each other.
  predicate DoubleNot(s: string) {
    exists i :: 0 <= i < |s| - 1 && s[i] == '!' && s[i + 1] == '!'
  }

  predicate EndsPlain(s: string) {
    s == "" || s[|s| - 1] != '!'
  }

  lemma {:induction false} UnaryEndsPlain(u: Unary)
    requires ValidUnary(u)
    ensures EndsPlain(UnaryText(u))
  {
    match u
    case Key(k) =>
      assert !Special(k[|k| - 1]);
    case Not(v) =>
      UnaryEndsPlain(v);
      FirstChar(v);
    case Paren(e) =>
  }

  // Joining at a seam that is not between two ! adds no pair.
  lemma DoubleAcross(a: string, b: string)
    requires EndsPlain(a) || b == "" || b[0] != '!'
    ensures DoubleNot(a + b) <==> DoubleNot(a) || DoubleNot(b)
  {
    if DoubleNot(a) {
      var i :| 0 <= i < |a| - 1 && a[i] == '!' && a[i + 1] == '!';
      assert (a + b)[i] == '!' && (a + b)[i + 1] == '!';
    }
    if DoubleNot(b) {
      var i :| 0 <= i < |b| - 1 && b[i] == '!' && b[i + 1] == '!';
      assert (a + b)[|a| + i] == '!' && (a + b)[|a| + i + 1] == '!';
    }
    if DoubleNot(a + b) {
      var i :| 0 <= i < |a + b| - 1 && (a + b)[i] == '!' && (a + b)[i + 1] == '!';
      if i >= |a| {
        assert b[i - |a|] == '!' && b[i - |a| + 1] == '!';
      } else if i + 1 < |a| {
        assert a[i] == '!' && a[i + 1] == '!';
      }
    }
  }

  lemma {:induction false} UnaryDouble(u: Unary)
    requires ValidUnary(u)
    ensures DoubleNot(UnaryText(u)) <==> !SingleNotsUnary(u)
    decreases u, 1
  {
    match u
    case Key(k) =>
      assert forall i :: 0 <= i < |k| ==> !Special(k[i]);
    case Not(v) =>
      UnaryDouble(v);
      FirstChar(v);
      var s := UnaryText(v);
      if v.Not? {
        assert ("!" + s)[0] == '!' && ("!" + s)[1] == '!';
      } else {
        DoubleAcross("!", s);
      }
    case Paren(e) =>
      ExpDouble(e);
      DoubleAcross("(", Text(e));
      DoubleAcross("(" + Text(e), ")");
  }

  lemma {:induction false} TailDouble(t: Tail)
    requires ValidTail(t)
    ensures DoubleNot(TailText(t)) <==> !SingleNotsTail(t)
    decreases t, 2
  {
    match t
    case End =>
    case More(op, u, r) =>
      UnaryDouble(u);
      UnaryEndsPlain(u);
      FirstChar(u);
      TailDouble(r);
      DoubleAcross([op], UnaryText(u));
      assert EndsPlain([op] + UnaryText(u));
      DoubleAcross([op] + UnaryText(u), TailText(r));
  }

  lemma {:induction false} ExpDouble(e: Exp)
    requires Valid(e)
    ensures DoubleNot(Text(e)) <==> !SingleNots(e)
    decreases e, 0
  {
    UnaryDouble(e.first);
    UnaryEndsPlain(e.first);
    TailDouble(e.rest);
    DoubleAcross(UnaryText(e.first), TailText(e.rest));
  }

  // The translation is the postfix form of the tree exactly when the string has no double !.
  lemma CompilesExactly(e: Exp)
    requires Valid(e)
    ensures Shunt("#", [], Text(e)) == Some(Postfix(e)) <==> !DoubleNot(Text(e))
  {
    ShuntCompiles(e);
    ExpAgrees(e);
    ExpDouble(e);
  }

  // ---------------------------------------------------------------- the loops

  // The end of the key that starts at pos0.
  method KeyEnd(expression: string, pos0: nat) returns (ii: nat)
    requires pos0 < |expression| && !Special(expression[pos0])
    ensures ii == pos0 + KeyLength(expression[pos0..])
  {
    ii := pos0 + 1;
    assert expression[pos0..][1..] == expression[ii..];
    while ii < |expression|
      invariant pos0 < ii <= |expression|
      invariant KeyLength(expression[pos0..]) == ii - pos0 + KeyLength(expression[ii..])
    {
      if Special(expression[ii]) {
        break;
      }
      assert expression[ii..][1..] == expression[ii + 1..];
      ii := ii + 1;
    }
  }

  method DrainTo(mark: char, st0: string, qu0: seq<string>) returns (st: string, qu: seq<string>)
    requires PopTo(mark, st0, qu0).Some?
    ensures PopTo(mark, st0, qu0) == Some(Stacks(st, qu)) && st != "" && Top(st) == mark
  {
    st, qu := st0, qu0;
    while Top(st) != mark
      invariant st != "" && PopTo(mark, st0, qu0) == PopTo(mark, st, qu)
      decreases |st|
    {
      qu := qu + [[Top(st)]];
      st := Popped(st);
    }
  }

  method PushOperator(c: char, st0: string, qu0: seq<string>) returns (st: string, qu: seq<string>)
    requires PopWhile(Priority(c), st0, qu0).Some?
    ensures st != "" && Top(st) == c && PopWhile(Priority(c), st0, qu0) == Some(Stacks(Popped(st), qu))
  {
    st, qu := st0, qu0;
    if Priority(c) > Priority(Top(st)) {
      st := st + [c];
    } else {
      while Priority(c) <= Priority(Top(st))
        invariant st != "" && PopWhile(Priority(c), st0, qu0) == PopWhile(Priority(c), st, qu)
        decreases |st|
      {
        qu := qu + [[Top(st)]];
        st := Popped(st);
      }
      st := st + [c];
    }
    assert Popped(st) + [c] == st;
  }

  // The loop over the characters; out is what it leads to.
  method ShuntAll(expression: string, ghost out: seq<string>) returns (qu: seq<string>)
    requires Shunt("#", [], expression) == Some(out)
    ensures qu == out
  {
    var st := "#";
    qu := [];
    var ii := 0;
    assert expression[0..] == expression;
    while ii < |expression|
      invariant 0 <= ii <= |expression|
      invariant Shunt(st, qu, expression[ii..]) == Some(out)
    {
      var curSmb := expression[ii];
      assert expression[ii..][1..] == expression[ii + 1..];
      if curSmb == '(' {
        st := st + "(";
        ii := ii + 1;
      } else if curSmb == ')' {
        st, qu := DrainTo('(', st, qu);
        st := Popped(st);
        ii := ii + 1;
      } else if Special(curSmb) {
        st, qu := PushOperator(curSmb, st, qu);
        assert st == Popped(st) + [curSmb];
        ii := ii + 1;
      } else {
        var end := KeyEnd(expression, ii);
        assert expression[ii..][..end - ii] == expression[ii..end] && expression[ii..][end - ii..] == expression[end..];
        qu := qu + [expression[ii..end]];
        ii := end;
      }
    }
    st, qu := DrainTo('#', st, qu);
  }

  // None is the exception for an expression that is not valid.
  method PreCalc(expression: string) returns (re: Option<seq<string>>)
    ensures re.None? <==> !exists e :: Valid(e) && Text(e) == expression
    ensures forall e :: Valid(e) && Text(e) == expression ==> re == Some(Compiled(e))
    ensures forall e :: Valid(e) && Text(e) == expression && !DoubleNot(expression) ==> re == Some(Postfix(e))
  {
    hide Compiled, Postfix, Text, Valid, DoubleNot;
    var ok := CheckExp(expression);
    if !ok {
      return None;
    }
    ghost var tree :| Valid(tree) && Text(tree) == expression;
    ShuntCompiles(tree);
    var qu := ShuntAll(expression, Compiled(tree));
    re := Some(qu);
    forall e | Valid(e) && Text(e) == expression
      ensures e == tree
    {
      TreeUnique(e, tree);
    }
    CompilesExactly(tree);
  }
}
