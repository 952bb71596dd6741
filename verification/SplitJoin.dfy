// What replacement means without positions: split the string at the occurrences, each the first that
// is left, and join the pieces with the new value.
module SplitJoin {
  import opened Memory
  import opened ReplaceString

  function Join(pieces: seq<string>, sep: string): string
    requires pieces != []
  {
    if |pieces| == 1 then pieces[0] else pieces[0] + sep + Join(pieces[1..], sep)
  }

  // With the separator behind it, no piece contains the separator any earlier; the last piece does
  // not contain it at all.
  ghost predicate FirstEach(pieces: seq<string>, sep: string)
    requires pieces != []
  {
    (forall i :: 0 <= i < |pieces| - 1 ==> FirstBehind(pieces[i], sep)) && Without(pieces[|pieces| - 1], sep)
  }

  ghost predicate FirstBehind(piece: string, sep: string) {
    forall q :: 0 <= q < |piece| ==> !Occurs(piece + sep, sep, q)
  }

  ghost predicate Without(s: string, sep: string) {
    forall q :: !Occurs(s, sep, q)
  }

  // The part of s that starts at from and is as long as t.
  lemma Window(s: string, from: nat, t: string, rest: string, q: nat, n: nat)
    requires from <= q && from <= |s| && s[from..] == t + rest && q + n <= from + |t|
    ensures q + n <= |s| && s[q..q + n] == t[q - from..q - from + n]
  {
    Whole(s, from);
    Inner(s, from, |s|, q - from, q - from + n);
    InFirst(t, rest, q - from, q - from + n);
  }

  // The next occurrence is where the first piece ends.
  lemma FindsPiece(s: string, ov: string, from: nat, piece: string, rest: string)
    requires ov != "" && from <= |s| && s[from..] == piece + ov + rest
    requires FirstBehind(piece, ov)
    ensures Find(s, ov, from) == from + |piece|
  {
    var at := from + |piece|;
    Window(s, from, piece + ov, rest, at, |ov|);
    assert (piece + ov)[|piece|..] == ov;
    assert Occurs(s, ov, at);
    forall q | from <= q < at
      ensures !Occurs(s, ov, q)
    {
      Window(s, from, piece + ov, rest, q, |ov|);
      assert !Occurs(piece + ov, ov, q - from);
    }
    var p := Find(s, ov, from);
    assert p != -1 && p <= at;
  }

  lemma OccursBehind(s: string, ov: string, from: nat, p: nat)
    requires from <= p && Occurs(s, ov, p)
    ensures Occurs(s[from..], ov, p - from)
  {
    Whole(s, from);
    Inner(s, from, |s|, p - from, p - from + |ov|);
  }

  lemma FindsNothing(s: string, ov: string, from: nat)
    requires ov != "" && from <= |s| && Without(s[from..], ov)
    ensures Find(s, ov, from) == -1
  {
    var p := Find(s, ov, from);
    if p != -1 {
      OccursBehind(s, ov, from, p);
      assert false;
    }
  }

  lemma {:induction false} JoinedFrom(s: string, ov: string, nv: string, from: nat, pieces: seq<string>)
    requires ov != "" && pieces != [] && FirstEach(pieces, ov) && from <= |s| && s[from..] == Join(pieces, ov)
    ensures ReplacedFrom(s, ov, nv, from) == Join(pieces, nv)
    decreases |pieces|
  {
    hide Find, Occurs, FirstBehind, Without, FirstEach, Join, ReplacedFrom;
    PiecesApart(pieces, ov);
    JoinStep(pieces, ov);
    JoinStep(pieces, nv);
    if |pieces| == 1 {
      FindsNothing(s, ov, from);
      ReplacedStep(s, ov, nv, from);
    } else {
      var rest := pieces[1..];
      FindsPiece(s, ov, from, pieces[0], Join(rest, ov));
      PieceParts(s, from, pieces[0], ov, Join(rest, ov));
      ReplacedStep(s, ov, nv, from);
      JoinedFrom(s, ov, nv, from + |pieces[0]| + |ov|, rest);
    }
  }

  lemma PiecesApart(pieces: seq<string>, sep: string)
    requires pieces != [] && FirstEach(pieces, sep)
    ensures if |pieces| == 1 then Without(pieces[0], sep) else FirstBehind(pieces[0], sep) && FirstEach(pieces[1..], sep)
  {
    hide FirstBehind, Without;
  }

  lemma JoinStep(pieces: seq<string>, sep: string)
    requires pieces != []
    ensures Join(pieces, sep) == if |pieces| == 1 then pieces[0] else pieces[0] + sep + Join(pieces[1..], sep)
  {}

  lemma ReplacedStep(s: string, ov: string, nv: string, from: nat)
    requires ov != "" && from <= |s|
    ensures var p := Find(s, ov, from);
            if p == -1 then ReplacedFrom(s, ov, nv, from) == s[from..]
            else from <= p && p + |ov| <= |s|
                 && ReplacedFrom(s, ov, nv, from) == s[from..p] + nv + ReplacedFrom(s, ov, nv, p + |ov|)
  {
    hide Find;
  }

  lemma PieceParts(s: string, from: nat, piece: string, ov: string, rest: string)
    requires from <= |s| && s[from..] == piece + ov + rest
    ensures from + |piece| + |ov| <= |s|
    ensures s[from..from + |piece|] == piece && s[from + |piece| + |ov|..] == rest
  {
    var t := piece + ov + rest;
    assert t[..|piece|] == piece && t[|piece| + |ov|..] == rest;
    assert s[from..][..|piece|] == s[from..from + |piece|];
    assert s[from..][|piece| + |ov|..] == s[from + |piece| + |ov|..];
  }

  // However such pieces are found: joined with the old value they are the string, and joined with
  // the new one they are its replacement.
  lemma ReplacedIsJoined(ov: string, nv: string, pieces: seq<string>)
    requires ov != "" && pieces != [] && FirstEach(pieces, ov)
    ensures Replaced(Join(pieces, ov), ov, nv) == Join(pieces, nv)
  {
    var s := Join(pieces, ov);
    assert s[0..] == s;
    JoinedFrom(s, ov, nv, 0, pieces);
  }

  // Every string can be split that way.
  lemma {:induction false} SplitFrom(s: string, ov: string, from: nat) returns (pieces: seq<string>)
    requires ov != "" && from <= |s|
    ensures pieces != [] && FirstEach(pieces, ov) && Join(pieces, ov) == s[from..]
    decreases |s| - from
  {
    var p := Find(s, ov, from);
    if p == -1 {
      pieces := [s[from..]];
      forall q
        ensures !Occurs(s[from..], ov, q)
      {
        NoneInSuffix(s, ov, from, q);
      }
    } else {
      var rest := SplitFrom(s, ov, p + |ov|);
      var piece := s[from..p];
      pieces := [piece] + rest;
      assert pieces[1..] == rest;
      assert s[p..p + |ov|] == ov;
      assert piece + ov == s[from..p + |ov|];
      assert piece + ov + s[p + |ov|..] == s[from..];
      forall q | 0 <= q < |piece|
        ensures !Occurs(piece + ov, ov, q)
      {
        NoneInPiece(s, ov, from, p, q);
      }
      assert forall i :: 1 <= i < |pieces| ==> pieces[i] == rest[i - 1];
    }
  }

  lemma NoneInSuffix(s: string, ov: string, from: nat, q: int)
    requires ov != "" && from <= |s| && Find(s, ov, from) == -1
    ensures !Occurs(s[from..], ov, q)
  {
    if 0 <= q <= |s| - from - |ov| {
      Whole(s, from);
      Inner(s, from, |s|, q, q + |ov|);
      assert !Occurs(s, ov, from + q);
    }
  }

  lemma NoneInPiece(s: string, ov: string, from: nat, p: nat, q: nat)
    requires ov != "" && from <= p <= |s| - |ov| && Find(s, ov, from) == p && q < p - from
    ensures !Occurs(s[from..p + |ov|], ov, q)
  {
    assert !Occurs(s, ov, from + q);
    Inner(s, from, p + |ov|, q, q + |ov|);
  }

  lemma EveryStringSplits(s: string, ov: string) returns (pieces: seq<string>)
    requires ov != ""
    ensures pieces != [] && FirstEach(pieces, ov) && Join(pieces, ov) == s
  {
    pieces := SplitFrom(s, ov, 0);
    assert s[0..] == s;
  }
}
