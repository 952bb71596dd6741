// Edit distance by two rows of the table, and what the number means: the least number of single
// character edits between the two strings.
module EditDistance {
  function Min(a: nat, b: nat): nat {
    if a <= b then a else b
  }

  function Init(s: string): string
    requires s != ""
  {
    s[..|s| - 1]
  }

  function Cost(a: string, b: string): nat
    requires a != "" && b != ""
  {
    if a[|a| - 1] == b[|b| - 1] then 0 else 1
  }

  // The distance, by the last characters.
  function Distance(a: string, b: string): nat
    decreases |a| + |b|
  {
    if a == "" then |b|
    else if b == "" then |a|
    else
      Min(Cost(a, b) + Distance(Init(a), Init(b)), Min(Distance(Init(a), b), Distance(a, Init(b))) + 1)
  }

  lemma {:induction false} Symmetric(a: string, b: string)
    ensures Distance(a, b) == Distance(b, a)
    decreases |a| + |b|
  {
    if a != "" && b != "" {
      Symmetric(Init(a), Init(b));
      Symmetric(Init(a), b);
      Symmetric(a, Init(b));
    }
  }

  // ---------------------------------------------------------------- edits

  datatype Edit = Insert(at: nat, c: char) | Delete(at: nat) | Replace(at: nat, c: char)

  predicate Applies(e: Edit, s: string) {
    if e.Insert? then e.at <= |s| else e.at < |s|
  }

  function Apply(e: Edit, s: string): string
    requires Applies(e, s)
  {
    match e
    case Insert(i, c) => s[..i] + [c] + s[i..]
    case Delete(i) => s[..i] + s[i + 1..]
    case Replace(i, c) => s[i := c]
  }

  // The edits, one after the other, turn s into t.
  predicate Turns(s: string, es: seq<Edit>, t: string)
    decreases |es|
  {
    if es == [] then s == t else Applies(es[0], s) && Turns(Apply(es[0], s), es[1..], t)
  }

  // One insertion at the end of a moves the distance by at most one.
  lemma {:induction false} OneMore(a: string, c: char, b: string)
    ensures Distance(a, b) <= Distance(a + [c], b) + 1
    decreases |b|
  {
    assert Init(a + [c]) == a;
    if b != "" {
      OneMore(a, c, Init(b));
    }
  }

  // One more character on either side adds at most one.
  lemma AddLast(a: string, b: string)
    ensures a != "" ==> Distance(a, b) <= Distance(Init(a), b) + 1
    ensures b != "" ==> Distance(a, b) <= Distance(a, Init(b)) + 1
  {}

  lemma ApplyInit(e: Edit, s: string)
    requires s != "" && Applies(e, s) && (if e.Insert? then e.at < |s| else e.at < |s| - 1)
    ensures Applies(e, Init(s)) && Apply(e, s) != "" && Init(Apply(e, s)) == Apply(e, Init(s))
    ensures Apply(e, s)[|Apply(e, s)| - 1] == s[|s| - 1]
  {}

  // An edit moves the distance by at most one.
  lemma {:induction false} EditMoves(a: string, e: Edit, b: string)
    requires Applies(e, a)
    ensures Distance(a, b) <= Distance(Apply(e, a), b) + 1
    decreases |a| + |b|
  {
    var x := Apply(e, a);
    if b == "" {
      assert Distance(a, b) == |a| && Distance(x, b) == |x|;
    } else if a != "" && (if e.Insert? then e.at < |a| else e.at < |a| - 1) {
      ApplyInit(e, a);
      EditMoves(Init(a), e, Init(b));
      EditMoves(Init(a), e, b);
      EditMoves(a, e, Init(b));
      assert Cost(x, b) == Cost(a, b);
    } else {
      EditAtEnd(a, e, b);
    }
  }

  lemma {:induction false} EditAtEnd(a: string, e: Edit, b: string)
    requires Applies(e, a) && (a == "" || if e.Insert? then e.at == |a| else e.at == |a| - 1)
    ensures Distance(a, b) <= Distance(Apply(e, a), b) + 1
    decreases |b|
  {
    var x := Apply(e, a);
    match e
    case Insert(i, c) =>
      assert x == a + [c];
      OneMore(a, c, b);
    case Delete(i) =>
      assert x == Init(a);
      AddLast(a, b);
    case Replace(i, c) =>
      assert Init(x) == Init(a);
      if b != "" {
        EditAtEnd(a, e, Init(b));
      }
  }

  // No list of edits from a to b is shorter than the distance.
  lemma {:induction false} NoShorter(a: string, es: seq<Edit>, b: string)
    requires Turns(a, es, b)
    ensures Distance(a, b) <= |es|
    decreases |es|
  {
    if es == [] {
      SameZero(a);
    } else {
      NoShorter(Apply(es[0], a), es[1..], b);
      EditMoves(a, es[0], b);
    }
  }

  lemma {:induction false} SameZero(a: string)
    ensures Distance(a, a) == 0
  {
    if a != "" {
      SameZero(Init(a));
    }
  }

  lemma {:induction false} TurnsConcat(s: string, es: seq<Edit>, t: string, e: Edit)
    requires Turns(s, es, t) && Applies(e, t)
    ensures Turns(s, es + [e], Apply(e, t))
    decreases |es|
  {
    if es == [] {
      assert [] + [e] == [e] && [e][1..] == [];
    } else {
      TurnsConcat(Apply(es[0], s), es[1..], t, e);
      assert (es + [e])[1..] == es[1..] + [e];
    }
  }

  // The same edits in front of one more character.
  lemma {:induction false} TurnsBefore(s: string, es: seq<Edit>, t: string, c: char)
    requires Turns(s, es, t)
    ensures Turns(s + [c], es, t + [c])
    decreases |es|
  {
    if es != [] {
      ApplyInit(es[0], s + [c]);
      assert Init(s + [c]) == s;
      var x := Apply(es[0], s + [c]);
      assert x == Init(x) + [x[|x| - 1]];
      TurnsBefore(Apply(es[0], s), es[1..], t, c);
    }
  }

  lemma ByInsert(a: string, es: seq<Edit>, b: string)
    requires b != "" && Turns(a, es, Init(b))
    ensures Turns(a, es + [Insert(|b| - 1, b[|b| - 1])], b)
  {
    TurnsConcat(a, es, Init(b), Insert(|b| - 1, b[|b| - 1]));
    assert Apply(Insert(|b| - 1, b[|b| - 1]), Init(b)) == b;
  }

  lemma ByDelete(a: string, es: seq<Edit>, b: string)
    requires a != "" && Turns(Init(a), es, b)
    ensures Turns(a, es + [Delete(|b|)], b)
  {
    var c := a[|a| - 1];
    TurnsBefore(Init(a), es, b, c);
    assert Init(a) + [c] == a;
    TurnsConcat(a, es, b + [c], Delete(|b|));
    assert Apply(Delete(|b|), b + [c]) == b;
  }

  lemma LastReplaced(b: string, c: char)
    requires b != ""
    ensures var e := Replace(|b| - 1, b[|b| - 1]); Applies(e, Init(b) + [c]) && Apply(e, Init(b) + [c]) == b
  {}

  lemma ByReplace(a: string, es: seq<Edit>, b: string)
    requires a != "" && b != "" && Turns(Init(a), es, Init(b))
    ensures Turns(a, if Cost(a, b) == 0 then es else es + [Replace(|b| - 1, b[|b| - 1])], b)
  {
    hide Turns;
    var c, d := a[|a| - 1], b[|b| - 1];
    TurnsBefore(Init(a), es, Init(b), c);
    assert Init(a) + [c] == a && Init(b) + [d] == b;
    LastReplaced(b, c);
    hide Apply, Applies, Init;
    if c != d {
      TurnsConcat(a, es, Init(b) + [c], Replace(|b| - 1, d));
    }
  }

  // A list of edits as long as the distance.
  lemma {:induction false} Shortest(a: string, b: string) returns (es: seq<Edit>)
    ensures Turns(a, es, b) && |es| == Distance(a, b)
    decreases |a| + |b|
  {
    hide Turns;
    if a == "" && b == "" {
      es := [];
      assert Turns("", [], "") by { NothingToDo(); }
    } else if b != "" && (a == "" || Distance(a, b) == Distance(a, Init(b)) + 1) {
      es := Shortest(a, Init(b));
      ByInsert(a, es, b);
      es := es + [Insert(|b| - 1, b[|b| - 1])];
    } else if a != "" && (b == "" || Distance(a, b) == Distance(Init(a), b) + 1) {
      es := Shortest(Init(a), b);
      ByDelete(a, es, b);
      es := es + [Delete(|b|)];
    } else {
      es := Shortest(Init(a), Init(b));
      ByReplace(a, es, b);
      es := if Cost(a, b) == 0 then es else es + [Replace(|b| - 1, b[|b| - 1])];
    }
  }

  lemma NothingToDo()
    ensures Turns("", [], "")
  {}

  // The distance is the least number of edits.
  lemma LeastEdits(a: string, b: string)
    ensures exists es :: Turns(a, es, b) && |es| == Distance(a, b)
    ensures forall es :: Turns(a, es, b) ==> |es| >= Distance(a, b)
  {
    var es := Shortest(a, b);
    forall fs | Turns(a, fs, b)
      ensures |fs| >= Distance(a, b)
    {
      NoShorter(a, fs, b);
    }
  }

  // ---------------------------------------------------------------- two rows

  lemma Cell(s1: string, s2: string, i: nat, j: nat)
    requires 0 < i <= |s1| && 0 < j <= |s2|
    ensures Distance(s1[..i], s2[..j])
         == Min((if s1[i - 1] == s2[j - 1] then 0 else 1) + Distance(s1[..i - 1], s2[..j - 1]),
                Min(Distance(s1[..i - 1], s2[..j]), Distance(s1[..i], s2[..j - 1])) + 1)
  {
    assert Init(s1[..i]) == s1[..i - 1] && Init(s2[..j]) == s2[..j - 1];
  }

  // The next row of the table from the row above it.
  method FillRow(s1: string, s2: string, ii: nat, above: array<nat>, row: array<nat>)
    requires 0 < ii <= |s1| && above != row && above.Length == row.Length == |s2| + 1
    requires forall j :: 0 <= j <= |s2| ==> above[j] == Distance(s1[..ii - 1], s2[..j])
    modifies row
    ensures forall j :: 0 <= j <= |s2| ==> row[j] == Distance(s1[..ii], s2[..j])
  {
    hide Distance;
    EmptyDistance(s1[..ii]);
    for jj := 0 to |s2| + 1
      invariant forall j :: 0 <= j < jj ==> row[j] == Distance(s1[..ii], s2[..j])
    {
      if jj == 0 {
        assert s2[..0] == "";
        row[0] := ii;
      } else {
        Cell(s1, s2, ii, jj);
        var val1 := (if s1[ii - 1] == s2[jj - 1] then 0 else 1) + above[jj - 1];
        var val2 := Min(above[jj], row[jj - 1]) + 1;
        row[jj] := Min(val1, val2);
      }
    }
  }

  lemma EmptyDistance(a: string)
    ensures Distance(a, "") == |a| && Distance("", a) == |a|
  {}

  method StrDif(s1: string, s2: string) returns (d: nat)
    ensures d == Distance(s1, s2)
    ensures exists es :: Turns(s1, es, s2) && |es| == d
    ensures forall es :: Turns(s1, es, s2) ==> |es| >= d
    decreases |s2| > |s1|
  {
    LeastEdits(s1, s2);
    hide Distance, Turns;
    if |s2| > |s1| {
      d := StrDif(s2, s1);
      Symmetric(s1, s2);
      return;
    }
    var m1, m2 := new nat[|s2| + 1], new nat[|s2| + 1];
    for ii := 0 to |s2| + 1
      invariant forall j :: 0 <= j < ii ==> m1[j] == j
    {
      m1[ii] := ii;
    }
    forall j | 0 <= j <= |s2|
      ensures m1[j] == Distance(s1[..0], s2[..j])
    {
      EmptyDistance(s2[..j]);
      assert s1[..0] == "";
    }
    for ii := 1 to |s1| + 1
      invariant fresh(m1) && fresh(m2) && m1 != m2 && m1.Length == m2.Length == |s2| + 1
      invariant forall j :: 0 <= j <= |s2| ==> m1[j] == Distance(s1[..ii - 1], s2[..j])
    {
      FillRow(s1, s2, ii, m1, m2);
      m1, m2 := m2, m1;
    }
    assert s1[..|s1|] == s1 && s2[..|s2|] == s2;
    d := m1[|s2|];
  }
}
