// Boolean expressions over keys with the operators ! & | and brackets: the grammar, the tree of
// an expression, and the checker that accepts exactly the strings of the grammar.
module BoolGrammar {
  predicate Special(c: char) {
    c == '!' || c == '&' || c == '|' || c == '(' || c == ')'
  }

  predicate Operator(c: char) {
    c == '&' || c == '|'
  }

  predicate KeyOnly(k: string) {
    forall i :: 0 <= i < |k| ==> !Special(k[i])
  }

  predicate ValidKey(k: string) {
    k != "" && KeyOnly(k)
  }

  // ---------------------------------------------------------------- the grammar

  // A derivation in E ::= key | !E | (E) | E&E | E|E. One string may have several.
  datatype Derivation =
    | Name(key: string)
    | Negate(inner: Derivation)
    | Bracket(inner: Derivation)
    | Combine(left: Derivation, op: char, right: Derivation)

  predicate Derives(d: Derivation, s: string) {
    ValidDerivation(d) && Spell(d) == s
  }

  predicate ValidDerivation(d: Derivation) {
    match d
    case Name(k) => ValidKey(k)
    case Negate(x) => ValidDerivation(x)
    case Bracket(x) => ValidDerivation(x)
    case Combine(l, op, r) => Operator(op) && ValidDerivation(l) && ValidDerivation(r)
  }

  function Spell(d: Derivation): string {
    match d
    case Name(k) => k
    case Negate(x) => "!" + Spell(x)
    case Bracket(x) => "(" + Spell(x) + ")"
    case Combine(l, op, r) => Spell(l) + [op] + Spell(r)
  }

  // The tree in which ! binds tightest and & and | have equal precedence, from left to right.
  datatype Exp = Exp(first: Unary, rest: Tail)
  datatype Unary = Key(key: string) | Not(u: Unary) | Paren(e: Exp)
  datatype Tail = End | More(op: char, u: Unary, t: Tail)

  predicate Valid(e: Exp) {
    ValidUnary(e.first) && ValidTail(e.rest)
  }

  predicate ValidUnary(u: Unary) {
    match u
    case Key(k) => ValidKey(k)
    case Not(v) => ValidUnary(v)
    case Paren(e) => Valid(e)
  }

  predicate ValidTail(t: Tail) {
    match t
    case End => true
    case More(op, u, r) => Operator(op) && ValidUnary(u) && ValidTail(r)
  }

  function Text(e: Exp): string {
    UnaryText(e.first) + TailText(e.rest)
  }

  function UnaryText(u: Unary): string {
    match u
    case Key(k) => k
    case Not(v) => "!" + UnaryText(v)
    case Paren(e) => "(" + Text(e) + ")"
  }

  function TailText(t: Tail): string {
    match t
    case End => ""
    case More(op, u, r) => [op] + UnaryText(u) + TailText(r)
  }

  // ---------------------------------------------------------------- the checker

  datatype State = BeginSymbol | NegationSymbol | AndOrSymbol | RightBracket | ExpKey

  predicate OperandNext(state: State) {
    state == BeginSymbol || state == NegationSymbol || state == AndOrSymbol
  }

  // The state after one character, and what it adds to the bracket count; None is a rejection.
  datatype Move = Reject | Go(state: State, br: int)

  function Next(state: State, br: int, c: char): Move {
    match state
    case BeginSymbol =>
      if c == '(' then Go(BeginSymbol, br + 1)
      else if c == '!' then Go(NegationSymbol, br)
      else if c == '&' || c == '|' || c == ')' then Reject
      else Go(ExpKey, br)
    case NegationSymbol =>
      if c == '(' then Go(BeginSymbol, br + 1)
      else if c == '!' then Go(NegationSymbol, br)
      else if c == '&' || c == '|' || c == ')' then Reject
      else Go(ExpKey, br)
    case AndOrSymbol =>
      if c == '(' then Go(BeginSymbol, br + 1)
      else if c == '!' then Go(NegationSymbol, br)
      else if c == '&' || c == '|' || c == ')' then Reject
      else Go(ExpKey, br)
    case RightBracket =>
      if c == '&' || c == '|' then Go(AndOrSymbol, br)
      else if c == ')' then if br - 1 < 0 then Reject else Go(RightBracket, br - 1)
      else Reject
    case ExpKey =>
      if c == '(' || c == '!' then Reject
      else if c == '&' || c == '|' then Go(AndOrSymbol, br)
      else if c == ')' then if br - 1 < 0 then Reject else Go(RightBracket, br - 1)
      else Go(ExpKey, br)
  }

  // Whether the rest of an expression is accepted from a state.
  predicate Accepts(state: State, br: int, s: string)
    decreases |s|
  {
    if s == "" then !OperandNext(state) && br == 0
    else
      match Next(state, br, s[0])
      case Reject => false
      case Go(state1, br1) => Accepts(state1, br1, s[1..])
  }

  method CheckExp(expression: string) returns (ok: bool)
    ensures ok <==> exists d :: Derives(d, expression)
    ensures ok <==> exists e :: Valid(e) && Text(e) == expression
    ensures ok == Accepts(BeginSymbol, 0, expression)
  {
    AcceptsExactlyGrammar(expression);
    var brNum := 0;
    var curState := BeginSymbol;
    for ii := 0 to |expression|
      invariant Accepts(BeginSymbol, 0, expression) == Accepts(curState, brNum, expression[ii..])
    {
      var curSmb := expression[ii];
      assert expression[ii..][1..] == expression[ii + 1..];
      match curState {
        case BeginSymbol =>
          if curSmb == '(' {
            brNum := brNum + 1;
          } else if curSmb == '!' {
            curState := NegationSymbol;
          } else if curSmb == '&' || curSmb == '|' || curSmb == ')' {
            return false;
          } else {
            curState := ExpKey;
          }
        case RightBracket =>
          if curSmb == '&' || curSmb == '|' {
            curState := AndOrSymbol;
          } else if curSmb == ')' {
            brNum := brNum - 1;
            if brNum < 0 {
              return false;
            }
          } else {
            return false;
          }
        case ExpKey =>
          if curSmb == '(' || curSmb == '!' {
            return false;
          } else if curSmb == '&' || curSmb == '|' {
            curState := AndOrSymbol;
          } else if curSmb == ')' {
            brNum := brNum - 1;
            if brNum < 0 {
              return false;
            }
            curState := RightBracket;
          }
        case _ =>
          if curSmb == '(' {
            curState := BeginSymbol;
            brNum := brNum + 1;
          } else if curSmb == '!' {
            curState := NegationSymbol;
          } else if curSmb == '&' || curSmb == '|' || curSmb == ')' {
            return false;
          } else {
            curState := ExpKey;
          }
      }
    }
    if curState != ExpKey && curState != RightBracket {
      return false;
    }
    if brNum != 0 {
      return false;
    }
    return true;
  }

  // ---------------------------------------------------------------- the grammar is accepted

  lemma {:induction false} KeyRuns(br: int, k: string, rest: string)
    requires KeyOnly(k)
    ensures Accepts(ExpKey, br, k + rest) == Accepts(ExpKey, br, rest)
  {
    if k == "" {
      assert k + rest == rest;
    } else {
      assert (k + rest)[1..] == k[1..] + rest;
      KeyRuns(br, k[1..], rest);
    }
  }

  lemma KeyAccepted(state: State, br: int, k: string, rest: string)
    requires OperandNext(state) && ValidKey(k)
    ensures Accepts(state, br, k + rest) == Accepts(ExpKey, br, rest)
  {
    assert (k + rest)[1..] == k[1..] + rest;
    KeyRuns(br, k[1..], rest);
  }

  function After(d: Derivation): State {
    match d
    case Name(_) => ExpKey
    case Negate(x) => After(x)
    case Bracket(_) => RightBracket
    case Combine(_, _, r) => After(r)
  }

  lemma CombineText(l: string, op: char, r: string, rest: string)
    ensures l + [op] + r + rest == l + ([op] + (r + rest))
    ensures ([op] + (r + rest))[1..] == r + rest
  {}

  // Where an operand may start, a derived string is read through to its end.
  lemma {:induction false} DerivedAccepted(d: Derivation, state: State, br: nat, rest: string)
    requires ValidDerivation(d) && OperandNext(state)
    ensures !OperandNext(After(d))
    ensures Accepts(state, br, Spell(d) + rest) == Accepts(After(d), br, rest)
    decreases d
  {
    match d
    case Name(k) =>
      KeyAccepted(state, br, k, rest);
    case Negate(x) =>
      DerivedAccepted(x, NegationSymbol, br, rest);
      assert ("!" + Spell(x) + rest)[1..] == Spell(x) + rest;
    case Bracket(x) =>
      DerivedAccepted(x, BeginSymbol, br + 1, ")" + rest);
      assert ("(" + Spell(x) + ")" + rest)[1..] == Spell(x) + (")" + rest);
      assert (")" + rest)[1..] == rest;
    case Combine(l, op, r) =>
      DerivedAccepted(l, state, br, [op] + (Spell(r) + rest));
      DerivedAccepted(r, AndOrSymbol, br, rest);
      CombineText(Spell(l), op, Spell(r), rest);
  }

  // ---------------------------------------------------------------- what is accepted has a tree

  // Nothing here continues an operand.
  predicate Stops(s: string) {
    s == "" || Operator(s[0]) || s[0] == ')'
  }

  function KeyLength(s: string): (n: nat)
    ensures n <= |s| && KeyOnly(s[..n]) && (n < |s| ==> Special(s[n]))
  {
    if s == "" || Special(s[0]) then 0
    else
      var n := KeyLength(s[1..]);
      assert s[..n + 1] == [s[0]] + s[1..][..n];
      n + 1
  }

  // An accepted operand is a tree, and the checker goes on behind it.
  lemma {:induction false} ParseUnary(state: State, br: nat, s: string) returns (u: Unary, rest: string, state1: State)
    requires OperandNext(state) && Accepts(state, br, s)
    ensures ValidUnary(u) && s == UnaryText(u) + rest && |rest| < |s|
    ensures !OperandNext(state1) && Accepts(state1, br, rest) && Stops(rest)
    decreases |s|, 0
  {
    var c := s[0];
    if c == '(' {
      var e;
      e, rest, state1 := ParseExp(BeginSymbol, br + 1, s[1..]);
      assert rest != "" && rest[0] == ')';
      u := Paren(e);
      assert s == "(" + s[1..];
      assert rest == ")" + rest[1..];
      rest, state1 := rest[1..], RightBracket;
      NothingButStops(RightBracket, br, rest);
    } else if c == '!' {
      var v;
      v, rest, state1 := ParseUnary(NegationSymbol, br, s[1..]);
      u := Not(v);
      assert s == "!" + s[1..];
    } else {
      var n := KeyLength(s);
      assert n > 0;
      u, rest, state1 := Key(s[..n]), s[n..], ExpKey;
      assert s == s[..n] + rest;
      KeyAccepted(state, br, s[..n], rest);
      if rest != "" {
        assert Special(rest[0]);
      }
    }
  }

  lemma NothingButStops(state: State, br: nat, s: string)
    requires state == RightBracket && Accepts(state, br, s)
    ensures Stops(s)
  {}

  lemma {:induction false} ParseTail(state: State, br: nat, s: string) returns (t: Tail, rest: string, state1: State)
    requires !OperandNext(state) && Accepts(state, br, s) && Stops(s)
    ensures ValidTail(t) && s == TailText(t) + rest
    ensures !OperandNext(state1) && Accepts(state1, br, rest) && (rest == "" || rest[0] == ')')
    decreases |s|, 1
  {
    if s == "" || s[0] == ')' {
      t, rest, state1 := End, s, state;
    } else {
      var u, r;
      u, rest, state1 := ParseUnary(AndOrSymbol, br, s[1..]);
      r, rest, state1 := ParseTail(state1, br, rest);
      t := More(s[0], u, r);
      assert s == [s[0]] + s[1..];
    }
  }

  lemma {:induction false} ParseExp(state: State, br: nat, s: string) returns (e: Exp, rest: string, state1: State)
    requires OperandNext(state) && Accepts(state, br, s)
    ensures Valid(e) && s == Text(e) + rest
    ensures !OperandNext(state1) && Accepts(state1, br, rest) && (rest == "" || rest[0] == ')')
    decreases |s|, 2
  {
    var u, t;
    u, rest, state1 := ParseUnary(state, br, s);
    t, rest, state1 := ParseTail(state1, br, rest);
    e := Exp(u, t);
  }

  // ---------------------------------------------------------------- trees are derivations

  lemma {:induction false} UnaryDerived(u: Unary) returns (d: Derivation)
    requires ValidUnary(u)
    ensures Derives(d, UnaryText(u))
    decreases u
  {
    match u
    case Key(k) => d := Name(k);
    case Not(v) =>
      d := UnaryDerived(v);
      d := Negate(d);
    case Paren(e) =>
      d := UnaryDerived(e.first);
      d := TailDerived(d, e.rest);
      d := Bracket(d);
  }

  lemma {:induction false} TailDerived(d0: Derivation, t: Tail) returns (d: Derivation)
    requires ValidDerivation(d0) && ValidTail(t)
    ensures Derives(d, Spell(d0) + TailText(t))
    decreases t
  {
    match t
    case End =>
      d := d0;
      assert Spell(d0) + "" == Spell(d0);
    case More(op, u, r) =>
      var x := UnaryDerived(u);
      d := TailDerived(Combine(d0, op, x), r);
      assert Spell(Combine(d0, op, x)) + TailText(r) == Spell(d0) + TailText(t);
  }

  // The checker accepts exactly the strings of the grammar, and each of them has a tree.
  lemma AcceptsExactlyGrammar(s: string)
    ensures Accepts(BeginSymbol, 0, s) <==> exists d :: Derives(d, s)
    ensures Accepts(BeginSymbol, 0, s) <==> exists e :: Valid(e) && Text(e) == s
  {
    if Accepts(BeginSymbol, 0, s) {
      var e, rest, state := ParseExp(BeginSymbol, 0, s);
      assert rest == "";
      assert Text(e) + "" == Text(e) == s;
      var d := UnaryDerived(e.first);
      d := TailDerived(d, e.rest);
      assert Derives(d, s);
    }
    forall d | Derives(d, s)
      ensures Accepts(BeginSymbol, 0, s)
    {
      DerivedAccepted(d, BeginSymbol, 0, "");
      assert s + "" == s;
    }
    forall e | Valid(e) && Text(e) == s
      ensures exists d :: Derives(d, s)
    {
      var d := UnaryDerived(e.first);
      d := TailDerived(d, e.rest);
      assert Derives(d, s);
    }
  }

  // ---------------------------------------------------------------- one string, one tree

  lemma KeyUnique(j: string, k: string, r: string, s: string)
    requires ValidKey(j) && ValidKey(k) && Stops(r) && Stops(s) && j + r == k + s
    ensures j == k && r == s
  {
    NotShorter(j, k, r, s);
    NotShorter(k, j, s, r);
    assert (j + r)[..|j|] == j && (k + s)[..|k|] == k;
    assert (j + r)[|j|..] == r && (k + s)[|k|..] == s;
  }

  function CharAt(s: string, i: nat): char {
    if i < |s| then s[i] else ' '
  }

  lemma NotShorter(j: string, k: string, r: string, s: string)
    requires KeyOnly(k) && Stops(r) && j + r == k + s
    ensures |j| >= |k|
  {
    assert |j| + |r| == |k| + |s|;
    InFront(k, s, |j|);
    InBack(j, r);
  }

  lemma InFront(k: string, s: string, i: nat)
    ensures i < |k| ==> CharAt(k + s, i) == k[i]
  {}

  lemma InBack(j: string, r: string)
    ensures r != "" ==> CharAt(j + r, |j|) == r[0]
  {}

  lemma Behind(c: char, x: string, y: string)
    requires [c] + x == [c] + y
    ensures x == y
  {
    assert ([c] + x)[1..] == x && ([c] + y)[1..] == y;
  }

  lemma FirstChar(u: Unary)
    requires ValidUnary(u)
    ensures UnaryText(u) != ""
    ensures match u case Key(_) => !Special(UnaryText(u)[0]) case Not(_) => UnaryText(u)[0] == '!'
            case Paren(_) => UnaryText(u)[0] == '('
  {}

  lemma TailStops(t: Tail, r: string)
    requires ValidTail(t) && Stops(r)
    ensures Stops(TailText(t) + r)
  {
    if t == End {
      assert "" + r == r;
    }
  }

  lemma {:induction false} UnaryUnique(u: Unary, v: Unary, r: string, s: string)
    requires ValidUnary(u) && ValidUnary(v) && Stops(r) && Stops(s)
    requires UnaryText(u) + r == UnaryText(v) + s
    ensures u == v && r == s
    decreases u
  {
    FirstChar(u);
    FirstChar(v);
    assert (UnaryText(u) + r)[0] == UnaryText(u)[0] && (UnaryText(v) + s)[0] == UnaryText(v)[0];
    match u
    case Key(j) =>
      KeyUnique(j, v.key, r, s);
    case Not(x) =>
      assert UnaryText(u) + r == ['!'] + (UnaryText(x) + r);
      assert UnaryText(v) + s == ['!'] + (UnaryText(v.u) + s);
      Behind('!', UnaryText(x) + r, UnaryText(v.u) + s);
      UnaryUnique(x, v.u, r, s);
    case Paren(e) =>
      var f := v.e;
      assert UnaryText(u) + r == ['('] + (Text(e) + (")" + r));
      assert UnaryText(v) + s == ['('] + (Text(f) + (")" + s));
      Behind('(', Text(e) + (")" + r), Text(f) + (")" + s));
      ExpUnique(e, f, ")" + r, ")" + s);
      Behind(')', r, s);
  }

  lemma {:induction false} ExpUnique(e: Exp, f: Exp, r: string, s: string)
    requires Valid(e) && Valid(f) && Text(e) + r == Text(f) + s
    requires (r == "" || r[0] == ')') && (s == "" || s[0] == ')')
    ensures e == f && r == s
    decreases e
  {
    assert Text(e) + r == UnaryText(e.first) + (TailText(e.rest) + r);
    assert Text(f) + s == UnaryText(f.first) + (TailText(f.rest) + s);
    TailStops(e.rest, r);
    TailStops(f.rest, s);
    UnaryUnique(e.first, f.first, TailText(e.rest) + r, TailText(f.rest) + s);
    TailUnique(e.rest, f.rest, r, s);
  }

  lemma MoreText(t: Tail, r: string)
    requires t.More?
    ensures TailText(t) + r == [t.op] + (UnaryText(t.u) + (TailText(t.t) + r))
  {
    hide UnaryText;
    assert [t.op] + UnaryText(t.u) + TailText(t.t) + r == [t.op] + (UnaryText(t.u) + (TailText(t.t) + r));
  }

  lemma TailHead(t: Tail, r: string)
    requires ValidTail(t) && (r == "" || r[0] == ')')
    ensures t == End ==> TailText(t) + r == r
    ensures t.More? ==> TailText(t) + r != "" && (TailText(t) + r)[0] == t.op
  {}

  lemma {:induction false} TailUnique(t: Tail, o: Tail, r: string, s: string)
    requires ValidTail(t) && ValidTail(o) && TailText(t) + r == TailText(o) + s
    requires (r == "" || r[0] == ')') && (s == "" || s[0] == ')')
    ensures t == o && r == s
    decreases t
  {
    TailHead(t, r);
    TailHead(o, s);
    if t.More? && o.More? {
      MoreText(t, r);
      MoreText(o, s);
      Behind(t.op, UnaryText(t.u) + (TailText(t.t) + r), UnaryText(o.u) + (TailText(o.t) + s));
      TailStops(t.t, r);
      TailStops(o.t, s);
      UnaryUnique(t.u, o.u, TailText(t.t) + r, TailText(o.t) + s);
      TailUnique(t.t, o.t, r, s);
    }
  }

  // A string is the text of at most one tree.
  lemma TreeUnique(e: Exp, f: Exp)
    requires Valid(e) && Valid(f) && Text(e) == Text(f)
    ensures e == f
  {
    ExpUnique(e, f, "", "");
  }
}
