// Replacement of every occurrence of a substring, in place: one branch for each way the length
// can change. All three leave the left-to-right, non-overlapping replacement in the buffer.
module ReplaceString {
  import opened Memory

  // ---------------------------------------------------------------- what is meant

  predicate Occurs(s: string, ov: string, at: int) {
    0 <= at <= |s| - |ov| && s[at..at + |ov|] == ov
  }

  // The least position from which on ov occurs, or -1: std::string::find.
  function Find(s: string, ov: string, from: nat): (p: int)
    ensures p == -1 || (from <= p && Occurs(s, ov, p))
    ensures forall q :: from <= q && (p == -1 || q < p) ==> !Occurs(s, ov, q)
    decreases |s| - from
  {
    if from + |ov| > |s| then -1
    else if Occurs(s, ov, from) then from
    else Find(s, ov, from + 1)
  }

  // Everything from position from on, with each next occurrence replaced.
  function ReplacedFrom(s: string, ov: string, nv: string, from: nat): string
    requires ov != "" && from <= |s|
    decreases |s| - from
  {
    var p := Find(s, ov, from);
    if p == -1 then s[from..] else s[from..p] + nv + ReplacedFrom(s, ov, nv, p + |ov|)
  }

  function Replaced(s: string, ov: string, nv: string): string {
    if ov == "" then s else ReplacedFrom(s, ov, nv, 0)
  }

  // ---------------------------------------------------------------- positions and pieces

  // Positions of occurrences of length n, in order and apart, and the length behind them.
  ghost predicate Spaced(ps: seq<nat>, n: nat, len: nat)
    decreases |ps|
  {
    ps != [] && (if |ps| == 1 then ps[0] == len else ps[0] + n <= ps[1] && Spaced(ps[1..], n, len))
  }

  lemma {:induction false} SpacedBelow(ps: seq<nat>, n: nat, len: nat)
    requires Spaced(ps, n, len)
    ensures ps[0] <= len && (|ps| > 1 ==> ps[0] + n <= ps[1] <= len)
    decreases |ps|
  {
    if |ps| > 1 {
      SpacedBelow(ps[1..], n, len);
    }
  }

  // The result from the first of the positions on.
  function Back(s: string, n: nat, nv: string, ps: seq<nat>): string
    requires Spaced(ps, n, |s|)
    decreases |ps|
  {
    if |ps| == 1 then ""
    else
      SpacedBelow(ps, n, |s|);
      nv + s[ps[0] + n..ps[1]] + Back(s, n, nv, ps[1..])
  }

  lemma {:induction false} BackLength(s: string, n: nat, nv: string, ps: seq<nat>)
    requires Spaced(ps, n, |s|)
    ensures |Back(s, n, nv, ps)| == |s| - ps[0] + (|ps| - 1) * (|nv| - n)
    decreases |ps|
  {
    if |ps| > 1 {
      SpacedBelow(ps, n, |s|);
      BackLength(s, n, nv, ps[1..]);
      OneMore(|ps| - 2, |nv| - n);
    }
  }

  lemma OneMore(i: int, d: int)
    ensures (i + 1) * d == i * d + d
  {}

  // Where the search of the loop leads, as a function.
  ghost function Positions(s: string, ov: string, from: nat): (ps: seq<nat>)
    requires ov != "" && from <= |s|
    ensures ps != []
    decreases |s| - from
  {
    var p := Find(s, ov, from);
    if p == -1 then [|s|] else [p] + Positions(s, ov, p + |ov|)
  }

  lemma {:induction false} PositionsSpaced(s: string, ov: string, from: nat)
    requires ov != "" && from <= |s|
    ensures Spaced(Positions(s, ov, from), |ov|, |s|) && Positions(s, ov, from)[0] >= from
    decreases |s| - from
  {
    var p := Find(s, ov, from);
    if p != -1 {
      PositionsSpaced(s, ov, p + |ov|);
      var rest := Positions(s, ov, p + |ov|);
      assert ([p] + rest)[1..] == rest;
    }
  }

  lemma {:induction false} PiecesAreReplaced(s: string, ov: string, nv: string, from: nat)
    requires ov != "" && from <= |s|
    ensures var ps := Positions(s, ov, from); Spaced(ps, |ov|, |s|) && from <= ps[0] <= |s|
    ensures var ps := Positions(s, ov, from);
            ReplacedFrom(s, ov, nv, from) == s[from..ps[0]] + Back(s, |ov|, nv, ps)
    decreases |s| - from
  {
    hide Back, Spaced, Occurs, Find;
    PositionsSpaced(s, ov, from);
    SpacedBelow(Positions(s, ov, from), |ov|, |s|);
    var p := Find(s, ov, from);
    if p == -1 {
      BackEnds(s, |ov|, nv);
      assert s[from..|s|] + "" == s[from..];
    } else {
      var m := p + |ov|;
      PiecesAreReplaced(s, ov, nv, m);
      NextPiece(s, |ov|, nv, from, p, Positions(s, ov, m));
    }
  }

  lemma BackEnds(s: string, n: nat, nv: string)
    ensures Spaced([|s|], n, |s|) && Back(s, n, nv, [|s|]) == ""
  {}

  lemma Assoc(a: string, b: string, c: string, d: string)
    ensures a + b + (c + d) == a + (b + c + d) && a + b + c + d == a + (b + c + d)
  {}

  lemma NextPiece(s: string, n: nat, nv: string, from: nat, p: nat, rest: seq<nat>)
    requires Spaced(rest, n, |s|) && from <= p && p + n <= rest[0]
    ensures Spaced([p] + rest, n, |s|) && rest[0] <= |s|
    ensures s[from..p] + nv + (s[p + n..rest[0]] + Back(s, n, nv, rest)) == s[from..p] + Back(s, n, nv, [p] + rest)
  {
    SpacedBelow(rest, n, |s|);
    assert ([p] + rest)[1..] == rest;
    Assoc(s[from..p], nv, s[p + n..rest[0]], Back(s, n, nv, rest));
  }

  // ---------------------------------------------------------------- the branches

  // The whole result.
  function Result(s: string, n: nat, nv: string, ps: seq<nat>): string
    requires Spaced(ps, n, |s|)
  {
    SpacedBelow(ps, n, |s|);
    s[..ps[0]] + Back(s, n, nv, ps)
  }

  lemma {:induction false} SpacedSuffix(ps: seq<nat>, n: nat, len: nat, i: nat)
    requires Spaced(ps, n, len) && i < |ps|
    ensures Spaced(ps[i..], n, len) && ps[i] <= len && (i < |ps| - 1 ==> ps[i] + n <= ps[i + 1] <= len)
    decreases i
  {
    if i == 0 {
      assert ps[0..] == ps;
      SpacedBelow(ps, n, len);
    } else {
      SpacedSuffix(ps[1..], n, len, i - 1);
      assert ps[1..][i - 1..] == ps[i..];
      SpacedBelow(ps[i..], n, len);
    }
  }

  lemma BackStep(s: string, n: nat, nv: string, ps: seq<nat>, i: nat)
    requires Spaced(ps, n, |s|) && i < |ps| - 1
    ensures Spaced(ps[i..], n, |s|) && Spaced(ps[i + 1..], n, |s|) && ps[i] + n <= ps[i + 1] <= |s|
    ensures Back(s, n, nv, ps[i..]) == nv + s[ps[i] + n..ps[i + 1]] + Back(s, n, nv, ps[i + 1..])
  {
    SpacedSuffix(ps, n, |s|, i);
    SpacedSuffix(ps, n, |s|, i + 1);
    assert ps[i..][1..] == ps[i + 1..];
  }

  // ---- forward: the first len characters are final, and what is still to move is untouched

  ghost predicate Forward(b: string, s: string, n: nat, nv: string, ps: seq<nat>, i: nat, len: nat) {
    && |b| == |s| && Spaced(ps, n, |s|) && i < |ps| && Spaced(ps[i..], n, |s|)
    && len <= ps[i] <= |s| && b[ps[i]..] == s[ps[i]..]
    && b[..len] + Back(s, n, nv, ps[i..]) == Result(s, n, nv, ps)
  }

  lemma ForwardStarts(s: string, n: nat, nv: string, ps: seq<nat>)
    requires Spaced(ps, n, |s|)
    ensures Forward(s, s, n, nv, ps, 0, ps[0])
  {
    SpacedBelow(ps, n, |s|);
    assert ps[0..] == ps;
  }

  lemma ForwardEnds(b: string, s: string, n: nat, nv: string, ps: seq<nat>, len: nat)
    requires ps != [] && Forward(b, s, n, nv, ps, |ps| - 1, len)
    ensures len <= |b| && b[..len] == Result(s, n, nv, ps)
  {
    assert b[..len] + "" == b[..len];
  }

  // The new value at the cursor, then the gap behind the occurrence.
  lemma ForwardStep(b: string, s: string, n: nat, nv: string, ps: seq<nat>, i: nat, len: nat)
    requires Forward(b, s, n, nv, ps, i, len) && i < |ps| - 1 && |nv| <= n
    ensures ps[i] + n <= ps[i + 1] <= |s|
    ensures var b1 := Written(b, len, nv); var at := len + |nv|; var g := b1[ps[i] + n..ps[i + 1]];
            Forward(Written(b1, at, g), s, n, nv, ps, i + 1, at + |g|)
  {
    BackStep(s, n, nv, ps, i);
    SpacedSuffix(ps, n, |s|, i + 1);
    hide Back, Result, Spaced, Written;
    var here, next := ps[i], ps[i + 1];
    var b1 := Written(b, len, nv);
    var at := len + |nv|;
    SameBehind(b, len, nv, s, here, here + n);
    var g := s[here + n..next];
    SamePart(b1, s, here + n, next);
    SameBehind(b1, at, g, s, here + n, next);
    WrittenTwice(b, len, nv, g);
    Assoc(b[..len], nv, g, Back(s, n, nv, ps[i + 1..]));
  }

  // Two writings, one behind the other.
  lemma WrittenTwice(b: string, at: nat, x: string, y: string)
    requires at + |x| + |y| <= |b|
    ensures Written(Written(b, at, x), at + |x|, y)[..at + |x| + |y|] == b[..at] + x + y
  {
    var b1 := Written(b, at, x);
    WrittenFront(b1, at + |x|, y);
    WrittenFront(b, at, x);
  }

  // Up to the end of what was written.
  lemma WrittenFront(b: string, at: nat, data: string)
    requires at + |data| <= |b|
    ensures Written(b, at, data)[..at] == b[..at] && Written(b, at, data)[..at + |data|] == b[..at] + data
  {}

  // From the start of what was written.
  lemma WrittenBack(b: string, at: nat, data: string)
    requires at + |data| <= |b|
    ensures Written(b, at, data)[at..] == data + b[at + |data|..]
  {}

  lemma SamePart(b: string, s: string, from: nat, to: nat)
    requires from <= to <= |b| == |s| && b[from..] == s[from..]
    ensures b[from..to] == s[from..to]
  {
    Whole(b, from);
    Whole(s, from);
    Inner(b, from, |b|, 0, to - from);
    Inner(s, from, |s|, 0, to - from);
  }

  // Writing in front of a position leaves what lies behind it.
  lemma SameBehind(b: string, at: nat, data: string, s: string, here: nat, there: nat)
    requires here <= there <= |b| == |s| && at + |data| <= there && b[here..] == s[here..]
    ensures Written(b, at, data)[there..] == s[there..]
  {
    assert b[there..] == b[here..][there - here..];
    assert s[there..] == s[here..][there - here..];
    assert Written(b, at, data)[there..] == b[there..];
  }

  // The lengths are the same: every occurrence is overwritten where it stands.
  method ReplaceSame(buf: array<char>, n: nat, nv: string, ps: seq<nat>)
    requires Spaced(ps, n, buf.Length) && |nv| == n
    modifies buf
    ensures buf[..] == Result(old(buf[..]), n, nv, ps)
  {
    hide Spaced, Forward, Result, Written;
    ghost var s := buf[..];
    ForwardStarts(s, n, nv, ps);
    PositionsGiven(ps, n, |s|);
    for ii := 0 to |ps| - 1
      invariant Forward(buf[..], s, n, nv, ps, ii, ps[ii])
    {
      Overwrite(buf, s, n, nv, ps, ii);
    }
    ForwardEnds(buf[..], s, n, nv, ps, ps[|ps| - 1]);
    LastPosition(ps, n, |s|);
    assert buf[..][..|s|] == buf[..];
  }

  method Overwrite(buf: array<char>, ghost s: string, n: nat, nv: string, ps: seq<nat>, ii: nat)
    requires ii < |ps| - 1 && Forward(buf[..], s, n, nv, ps, ii, ps[ii]) && |nv| == n
    modifies buf
    ensures Forward(buf[..], s, n, nv, ps, ii + 1, ps[ii + 1])
  {
    hide Spaced, Forward, Written;
    CursorFits(buf[..], s, n, nv, ps, ii, ps[ii]);
    ForwardStep(buf[..], s, n, nv, ps, ii, ps[ii]);
    MemCpy(buf, ps[ii], nv);
    InPlace(buf[..], ps[ii] + n, ps[ii + 1]);
  }

  lemma PositionsGiven(ps: seq<nat>, n: nat, len: nat)
    requires Spaced(ps, n, len)
    ensures ps != []
  {}

  lemma {:induction false} LastPosition(ps: seq<nat>, n: nat, len: nat)
    requires Spaced(ps, n, len)
    ensures ps[|ps| - 1] == len
    decreases |ps|
  {
    if |ps| > 1 {
      LastPosition(ps[1..], n, len);
    }
  }

  lemma InPlace(b: string, at: nat, to: nat)
    requires at <= to <= |b|
    ensures Written(b, at, b[at..to]) == b
  {}

  // The new value is shorter: forward, the cursor never ahead of what is still to move.
  method ReplaceShorter(buf: array<char>, n: nat, nv: string, ps: seq<nat>) returns (len: nat)
    requires Spaced(ps, n, buf.Length) && |nv| < n
    modifies buf
    ensures len <= buf.Length && buf[..len] == Result(old(buf[..]), n, nv, ps)
  {
    hide Spaced, Forward, Result, Written;
    ghost var s := buf[..];
    ForwardStarts(s, n, nv, ps);
    PositionsGiven(ps, n, |s|);
    len := ps[0];
    for ii := 0 to |ps| - 1
      invariant Forward(buf[..], s, n, nv, ps, ii, len)
    {
      len := MoveForward(buf, s, n, nv, ps, ii, len);
    }
    ForwardEnds(buf[..], s, n, nv, ps, len);
    assert buf[..][..len] == buf[..len];
  }

  method MoveForward(buf: array<char>, ghost s: string, n: nat, nv: string, ps: seq<nat>, ii: nat, at: nat)
      returns (len: nat)
    requires ii < |ps| - 1 && Forward(buf[..], s, n, nv, ps, ii, at) && |nv| < n
    modifies buf
    ensures Forward(buf[..], s, n, nv, ps, ii + 1, len)
  {
    hide Spaced, Forward, Written;
    CursorFits(buf[..], s, n, nv, ps, ii, at);
    ForwardStep(buf[..], s, n, nv, ps, ii, at);
    var cplen := ps[ii + 1] - ps[ii] - n;
    PutAndMove(buf, at, nv, ps[ii] + n, cplen);
    len := at + |nv| + cplen;
  }

  // The new value at the cursor, then len characters from src behind it.
  method PutAndMove(buf: array<char>, at: nat, nv: string, src: nat, len: nat)
    requires at + |nv| + len <= buf.Length && src + len <= buf.Length
    modifies buf
    ensures var b1 := Written(old(buf[..]), at, nv);
            buf[..] == Written(b1, at + |nv|, b1[src..src + len])
  {
    MemCpy(buf, at, nv);
    MemMove(buf, at + |nv|, src, len);
  }

  // The same the other way round, in front of the cursor p.
  method MoveAndPut(buf: array<char>, p: nat, nv: string, src: nat, len: nat)
    requires p <= buf.Length && len + |nv| <= p && src + len <= buf.Length
    modifies buf
    ensures var b := old(buf[..]);
            buf[..] == Written(Written(b, p - len, b[src..src + len]), p - len - |nv|, nv)
  {
    MemMove(buf, p - len, src, len);
    MemCpy(buf, p - len - |nv|, nv);
  }

  lemma CursorFits(b: string, s: string, n: nat, nv: string, ps: seq<nat>, i: nat, len: nat)
    requires Forward(b, s, n, nv, ps, i, len)
    ensures len <= ps[i] <= |s| == |b| && (i < |ps| - 1 ==> ps[i] + n <= ps[i + 1] <= |s|)
  {
    SpacedSuffix(ps, n, |s|, i);
  }

  // ---- backward: what lies behind the cursor is final, and what is still to move is untouched

  ghost predicate Backward(b: string, s: string, n: nat, nv: string, ps: seq<nat>, i: nat, p: nat) {
    && Spaced(ps, n, |s|) && i < |ps| && Spaced(ps[i..], n, |s|) && |nv| > n
    && p <= |b| && ps[i] <= |s| && p == ps[i] + i * (|nv| - n)
    && b[p..] == Back(s, n, nv, ps[i..]) && ps[i] <= |b| && b[..ps[i]] == s[..ps[i]]
  }

  lemma BackwardStep(b: string, s: string, n: nat, nv: string, ps: seq<nat>, i: nat, p: nat)
    requires 0 < i && Backward(b, s, n, nv, ps, i, p)
    ensures ps[i - 1] + n <= ps[i] <= |b|
    ensures var cplen := ps[i] - ps[i - 1] - n;
            p - cplen - |nv| >= 0
            && var g := b[ps[i - 1] + n..ps[i]]; var b1 := Written(b, p - cplen, g);
            Backward(Written(b1, p - cplen - |nv|, nv), s, n, nv, ps, i - 1, p - cplen - |nv|)
  {
    hide Back, Spaced, Written;
    BackStep(s, n, nv, ps, i - 1);
    OneMore(i - 1, |nv| - n);
    NaturalSteps(i - 1, |nv| - n);
    MovesBack(b, s, n, nv, ps[i - 1], ps[i], p);
  }

  // The gap moves behind the new value, both in front of the cursor p.
  lemma MovesBack(b: string, s: string, n: nat, nv: string, here: nat, next: nat, p: nat)
    requires here + n <= next <= |s| && next <= p <= |b| && b[..next] == s[..next]
    requires here + |nv| + (next - here - n) <= p
    ensures var q := p - (next - here - n); var b1 := Written(b, q, b[here + n..next]);
            var b2 := Written(b1, q - |nv|, nv);
            b2[q - |nv|..] == nv + s[here + n..next] + b[p..] && b2[..here] == s[..here]
  {
    hide Written;
    var g := s[here + n..next];
    SameMiddle(b, s, here + n, next);
    var q := p - |g|;
    var b1 := Written(b, q, g);
    WrittenBack(b, q, g);
    WrittenBack(b1, q - |nv|, nv);
    WrittenFront(b, q, g);
    WrittenFront(b1, q - |nv|, nv);
    assert nv + g + b[p..] == nv + (g + b[p..]);
    SameFront(b, b1, q, here);
    SameFront(b1, Written(b1, q - |nv|, nv), q - |nv|, here);
    SameFront(s, b, next, here);
  }

  lemma SameMiddle(a: string, b: string, i: nat, n: nat)
    requires i <= n <= |a| && n <= |b| && a[..n] == b[..n]
    ensures a[i..n] == b[i..n]
  {
    Inner(a, 0, n, i, n);
    Inner(b, 0, n, i, n);
    assert a[0..n] == a[..n] && b[0..n] == b[..n];
  }

  lemma SameFront(a: string, b: string, n: nat, k: nat)
    requires k <= n <= |a| && n <= |b| && a[..n] == b[..n]
    ensures a[..k] == b[..k]
  {
    assert a[..k] == a[..n][..k] && b[..k] == b[..n][..k];
  }

  lemma NaturalSteps(i: nat, d: nat)
    ensures i * d >= 0
  {}

  // The new value is longer: backward from the end of the enlarged buffer.
  method ReplaceLonger(buf: array<char>, ghost s: string, n: nat, nv: string, ps: seq<nat>)
    requires Spaced(ps, n, |s|) && |nv| > n && |s| <= buf.Length && buf[..|s|] == s
    requires buf.Length == |s| + (|ps| - 1) * (|nv| - n)
    modifies buf
    ensures buf[..] == Result(s, n, nv, ps)
  {
    hide Spaced, Backward, Result, Written;
    var ii := |ps| - 1;
    var p := buf.Length;
    BackwardStarts(buf[..], s, n, nv, ps);
    while ii > 0
      invariant 0 <= ii < |ps| && 0 <= p <= buf.Length
      invariant Backward(buf[..], s, n, nv, ps, ii, p)
    {
      BackwardStep(buf[..], s, n, nv, ps, ii, p);
      var cplen := ps[ii] - ps[ii - 1] - n;
      MoveAndPut(buf, p, nv, ps[ii - 1] + n, cplen);
      p := p - cplen - |nv|;
      ii := ii - 1;
    }
    BackwardEnds(buf[..], s, n, nv, ps, p);
  }

  lemma BackwardStarts(b: string, s: string, n: nat, nv: string, ps: seq<nat>)
    requires Spaced(ps, n, |s|) && |nv| > n && |s| <= |b| && b[..|s|] == s
    requires |b| == |s| + (|ps| - 1) * (|nv| - n)
    ensures |ps| >= 1 && Backward(b, s, n, nv, ps, |ps| - 1, |b|)
  {
    LastPosition(ps, n, |s|);
    SpacedSuffix(ps, n, |s|, |ps| - 1);
    assert b[|b|..] == "" && s[..|s|] == s;
  }

  lemma BackwardEnds(b: string, s: string, n: nat, nv: string, ps: seq<nat>, p: nat)
    requires Backward(b, s, n, nv, ps, 0, p)
    ensures b == Result(s, n, nv, ps)
  {
    assert ps[0..] == ps;
    assert b == b[..p] + b[p..];
  }

  // ---------------------------------------------------------------- the whole function

  lemma PositionsUnfold(s: string, ov: string, from: nat)
    requires ov != "" && from <= |s|
    ensures var p := Find(s, ov, from);
            if p == -1 then Positions(s, ov, from) == [|s|]
            else from <= p && p + |ov| <= |s| && Positions(s, ov, from) == [p] + Positions(s, ov, p + |ov|)
  {
    hide Find;
  }

  lemma OneFurther(ps: seq<nat>, p: nat, rest: seq<nat>)
    ensures ps + ([p] + rest) == ps + [p] + rest
  {}

  // The search loop.
  method FindAll(str: string, ov: string) returns (ps: seq<nat>)
    requires ov != ""
    ensures ps + [|str|] == Positions(str, ov, 0)
  {
    hide Find, Positions, Occurs;
    ps := [];
    var pos := Find(str, ov, 0);
    ghost var from := 0;
    while pos != -1
      invariant 0 <= from <= |str| && pos == Find(str, ov, from)
      invariant ps + Positions(str, ov, from) == Positions(str, ov, 0)
      decreases |str| - from
    {
      PositionsUnfold(str, ov, from);
      OneFurther(ps, pos, Positions(str, ov, pos + |ov|));
      ps := ps + [pos];
      from := pos + |ov|;
      pos := Find(str, ov, pos + |ov|);
    }
    PositionsUnfold(str, ov, from);
  }

  // Enlarging the string and moving its pieces apart.
  method Enlarge(str: array<char>, n: nat, nv: string, ps: seq<nat>) returns (re: array<char>)
    requires Spaced(ps, n, str.Length) && |nv| > n
    ensures fresh(re) && re[..] == Result(str[..], n, nv, ps)
  {
    hide Spaced, Result, Written;
    PositionsGiven(ps, n, str.Length);
    NaturalSteps(|ps| - 1, |nv| - n);
    re := new char[str.Length + (|ps| - 1) * (|nv| - n)];
    ghost var blank := re[..];
    MemCpy(re, 0, str[..]);
    WrittenFront(blank, 0, str[..]);
    assert re[..str.Length] == re[..][..str.Length];
    ReplaceLonger(re, str[..], n, nv, ps);
  }

  // The string is the first len characters of the buffer; it only moves to a new one to grow.
  method Replace(str: array<char>, ov: string, nv: string) returns (re: array<char>, len: nat)
    modifies str
    ensures len <= re.Length && re[..len] == Replaced(old(str[..]), ov, nv)
    ensures ov != "" ==> len == str.Length + (|Positions(old(str[..]), ov, 0)| - 1) * (|nv| - |ov|)
    ensures re == str || fresh(re)
    ensures |nv| <= |ov| ==> re == str
  {
    hide Replaced, Spaced, Result;
    ghost var s := str[..];
    re, len := str, str.Length;
    assert str[..len] == s;
    if str.Length == 0 || |ov| == 0 {
      NothingToReplace(s, ov, nv);
      if ov != "" {
        ReplacedLength(s, ov, nv);
      }
      return;
    }
    var found := FindAll(str[..], ov);
    var ps := found + [str.Length];
    ResultIsReplaced(s, ov, nv);
    ReplacedLength(s, ov, nv);
    if |found| == 0 {
      NothingFound(s, |ov|, nv);
      return;
    }
    if |ov| == |nv| {
      ReplaceSame(str, |ov|, nv, ps);
      assert str[..len] == str[..];
    } else if |ov| > |nv| {
      len := ReplaceShorter(str, |ov|, nv, ps);
    } else {
      re := Enlarge(str, |ov|, nv, ps);
      len := re.Length;
      assert re[..len] == re[..];
    }
  }

  lemma NothingToReplace(s: string, ov: string, nv: string)
    requires s == "" || ov == ""
    ensures Replaced(s, ov, nv) == s
  {}

  lemma NothingFound(s: string, n: nat, nv: string)
    ensures Spaced([|s|], n, |s|) && Result(s, n, nv, [|s|]) == s
  {
    assert s[..|s|] + "" == s;
  }

  lemma ResultIsReplaced(s: string, ov: string, nv: string)
    requires ov != ""
    ensures var ps := Positions(s, ov, 0); Spaced(ps, |ov|, |s|) && Result(s, |ov|, nv, ps) == Replaced(s, ov, nv)
  {
    PiecesAreReplaced(s, ov, nv, 0);
  }

  // Every occurrence that is replaced makes the difference of the lengths.
  lemma ReplacedLength(s: string, ov: string, nv: string)
    requires ov != ""
    ensures |Replaced(s, ov, nv)| == |s| + (|Positions(s, ov, 0)| - 1) * (|nv| - |ov|)
  {
    hide Positions, Back, Spaced;
    PiecesAreReplaced(s, ov, nv, 0);
    BackLength(s, |ov|, nv, Positions(s, ov, 0));
  }
}
