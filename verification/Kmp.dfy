// Substring search with the strong failure function, which skips a border when the character
// behind it is the one that has just failed.
module Kmp {
  ghost predicate Occurs(ss: string, ps: string, at: int) {
    0 <= at <= |ss| - |ps| && ss[at..at + |ps|] == ps
  }

  // The first b characters of ps are also the last b of its first n.
  ghost predicate Border(ps: string, n: int, b: int) {
    0 <= b < n <= |ps| && ps[..b] == ps[n - b..n]
  }

  // v is the longest border of the first j characters that is not followed by the character at
  // j again, or -1.
  ghost predicate Strong(ps: string, j: int, v: int)
    requires 0 <= j < |ps|
  {
    && (v == -1 || (Border(ps, j, v) && ps[v] != ps[j]))
    && forall k :: v < k < j && Border(ps, j, k) ==> ps[k] == ps[j]
  }

  // ---------------------------------------------------------------- borders

  lemma BorderOfBorder(ps: string, n: int, b: int, a: int)
    requires Border(ps, n, b) && Border(ps, b, a)
    ensures Border(ps, n, a)
  {
    assert ps[n - a..n] == ps[n - b..n][b - a..] == ps[..b][b - a..];
    assert ps[..b][b - a..] == ps[b - a..b];
  }

  lemma BorderWithin(ps: string, n: int, b: int, a: int)
    requires Border(ps, n, b) && Border(ps, n, a) && a < b
    ensures Border(ps, b, a)
  {
    assert ps[n - a..n] == ps[n - b..n][b - a..] == ps[..b][b - a..];
    assert ps[..b][b - a..] == ps[b - a..b];
  }

  // A border of one more character is a border followed by that character.
  lemma BorderGrows(ps: string, n: int, b: int)
    requires 0 <= b < n < |ps|
    ensures Border(ps, n + 1, b + 1) <==> Border(ps, n, b) && ps[b] == ps[n]
  {
    assert ps[..b + 1] == ps[..b] + [ps[b]];
    assert ps[n - b..n + 1] == ps[n - b..n] + [ps[n]];
  }

  // ---------------------------------------------------------------- the failure function

  ghost predicate NoneAbove(ps: string, n: int, b: int) {
    forall k :: b < k < n ==> !Border(ps, n, k)
  }

  // jj is the longest border that may still be extended at ii.
  ghost predicate Candidate(ps: string, ii: int, jj: int)
    requires 0 <= ii < |ps|
  {
    && (jj == -1 || Border(ps, ii, jj))
    && NoneAbove(ps, ii + 1, jj + 1)
  }

  lemma NoneAboveGrows(ps: string, n: int, b: int)
    requires 0 <= b < n < |ps| && NoneAbove(ps, n, b)
    ensures NoneAbove(ps, n + 1, b + 1)
  {
    var m := n + 1;
    forall k | b + 1 < k < m
      ensures !Border(ps, m, k)
    {
      BorderGrows(ps, n, k - 1);
      NotAbove(ps, n, b, k - 1);
    }
  }

  lemma NotAbove(ps: string, n: int, b: int, k: int)
    requires NoneAbove(ps, n, b) && b < k < n
    ensures !Border(ps, n, k)
  {}

  lemma MatchAdvances(ps: string, ii: int, jj: int)
    requires 0 <= ii < |ps| - 1 && Candidate(ps, ii, jj) && -1 <= jj < ii
    requires jj == -1 || ps[ii] == ps[jj]
    ensures Border(ps, ii + 1, jj + 1)
    ensures NoneAbove(ps, ii + 1, jj + 1)
    ensures Candidate(ps, ii + 1, jj + 1)
  {
    if jj >= 0 {
      BorderGrows(ps, ii, jj);
    }
    NoneAboveGrows(ps, ii + 1, jj + 1);
  }

  lemma MismatchFallsBack(ps: string, ii: int, jj: int, v: int)
    requires 0 <= ii < |ps| && Candidate(ps, ii, jj) && 0 <= jj < ii && ps[ii] != ps[jj] && Strong(ps, jj, v)
    ensures -1 <= v < jj && Candidate(ps, ii, v)
  {
    if v >= 0 {
      BorderOfBorder(ps, ii, jj, v);
    }
    var n := ii + 1;
    forall k | v + 1 < k < n
      ensures !Border(ps, n, k)
    {
      if k > jj + 1 {
        NotAbove(ps, n, jj + 1, k);
      } else {
        BorderGrows(ps, ii, k - 1);
        if k <= jj {
          NotFollowed(ps, ii, jj, v, k - 1);
        }
      }
    }
  }

  // A border between v and jj is followed by the character that has just failed.
  lemma NotFollowed(ps: string, ii: int, jj: int, v: int, k: int)
    requires 0 <= ii < |ps| && Border(ps, ii, jj) && ps[ii] != ps[jj] && Strong(ps, jj, v) && v < k < jj && k >= 0
    ensures !(Border(ps, ii, k) && ps[k] == ps[ii])
  {
    if Border(ps, ii, k) {
      BorderWithin(ps, ii, jj, k);
    }
  }

  // The entry for the next position, from the longest border jj there.
  lemma EntryIsStrong(ps: string, ii: int, jj: int, v: int)
    requires 0 < ii < |ps| && Border(ps, ii, jj) && Strong(ps, jj, v)
    requires NoneAbove(ps, ii, jj)
    ensures Strong(ps, ii, if ps[ii] == ps[jj] then v else jj)
  {
    if ps[ii] == ps[jj] {
      if v >= 0 {
        BorderOfBorder(ps, ii, jj, v);
      }
      forall k | v < k < ii && Border(ps, ii, k)
        ensures ps[k] == ps[ii]
      {
        if k < jj {
          BorderWithin(ps, ii, jj, k);
        }
      }
    }
  }

  lemma StartBuild(ps: string)
    requires ps != ""
    ensures Strong(ps, 0, -1) && Candidate(ps, 0, -1)
  {}

  method BuildNext(ps: string) returns (next: seq<int>)
    requires ps != ""
    ensures |next| == |ps| && forall j :: 0 <= j < |ps| ==> Strong(ps, j, next[j])
  {
    hide Border, Strong, NoneAbove, Candidate;
    next := seq(|ps|, i => 0);
    next := next[0 := -1];
    StartBuild(ps);
    var ii, jj := 0, -1;
    while ii < |ps| - 1
      invariant 0 <= ii < |ps| && -1 <= jj < |ps| && jj < ii && |next| == |ps|
      invariant forall j :: 0 <= j <= ii ==> Strong(ps, j, next[j])
      invariant Candidate(ps, ii, jj)
      decreases 2 * |ps| + jj - 2 * ii
    {
      if jj == -1 || ps[ii] == ps[jj] {
        MatchAdvances(ps, ii, jj);
        ii := ii + 1;
        jj := jj + 1;
        EntryIsStrong(ps, ii, jj, next[jj]);
        next := next[ii := if ps[ii] == ps[jj] then next[jj] else jj];
      } else {
        MismatchFallsBack(ps, ii, jj, next[jj]);
        jj := next[jj];
      }
    }
  }

  // ---------------------------------------------------------------- the search

  // jj characters match up to ii, and nothing starts before them.
  ghost predicate Searching(ss: string, ps: string, ii: int, jj: int) {
    && 0 <= ii <= |ss| && -1 <= jj <= |ps| && jj <= ii
    && (jj >= 0 ==> ss[ii - jj..ii] == ps[..jj])
    && forall at :: 0 <= at < ii - jj ==> !Occurs(ss, ps, at)
  }

  lemma SearchAdvances(ss: string, ps: string, ii: int, jj: int)
    requires Searching(ss, ps, ii, jj) && ii < |ss| && jj < |ps| && (jj == -1 || ss[ii] == ps[jj])
    ensures Searching(ss, ps, ii + 1, jj + 1)
  {
    if jj >= 0 {
      assert ss[ii - jj..ii + 1] == ss[ii - jj..ii] + [ss[ii]];
      assert ps[..jj + 1] == ps[..jj] + [ps[jj]];
    }
  }

  // No occurrence starts between the failed one and the border that is tried next.
  lemma SearchFallsBack(ss: string, ps: string, ii: int, jj: int, v: int)
    requires Searching(ss, ps, ii, jj) && ii < |ss| && 0 <= jj < |ps| && ss[ii] != ps[jj] && Strong(ps, jj, v)
    ensures -1 <= v < jj && Searching(ss, ps, ii, v)
  {
    if v >= 0 {
      assert ss[ii - v..ii] == ss[ii - jj..ii][jj - v..] == ps[..jj][jj - v..] == ps[jj - v..jj];
    }
    forall at | 0 <= at < ii - v
      ensures !Occurs(ss, ps, at)
    {
      if at >= ii - jj {
        NotBetween(ss, ps, ii, jj, v, at);
      }
    }
  }

  lemma NotBetween(ss: string, ps: string, ii: int, jj: int, v: int, at: int)
    requires Searching(ss, ps, ii, jj) && ii < |ss| && 0 <= jj < |ps| && ss[ii] != ps[jj] && Strong(ps, jj, v)
    requires ii - jj <= at < ii - v && at <= ii
    ensures !Occurs(ss, ps, at)
  {
    if Occurs(ss, ps, at) {
      OccurrenceGives(ss, ps, ii, jj, at);
    }
  }

  // An occurrence that overlaps the characters matched so far makes the overlap a border.
  lemma OccurrenceGives(ss: string, ps: string, ii: int, jj: int, at: int)
    requires 0 <= jj <= ii < |ss| && jj < |ps| && ss[ii - jj..ii] == ps[..jj]
    requires Occurs(ss, ps, at) && ii - jj <= at <= ii
    ensures ss[ii] == ps[ii - at] && (ii - at < jj ==> Border(ps, jj, ii - at))
  {
    var k := ii - at;
    assert ss[at..at + |ps|][k] == ss[at + k];
    assert ss[at..ii] == ss[at..at + |ps|][..k] == ps[..k];
    assert ss[at..ii] == ss[ii - jj..ii][jj - k..] == ps[..jj][jj - k..] == ps[jj - k..jj];
  }

  // The least place where ps occurs, or the length of ss when it does not occur, when ps is
  // empty and when ps is longer. Positions are 32-bit signed.
  method Search(ss: string, ps: string) returns (r: nat)
    requires |ss| < 0x8000_0000
    ensures r <= |ss|
    ensures ps != "" && r < |ss| ==> Occurs(ss, ps, r) && forall at :: 0 <= at < r ==> !Occurs(ss, ps, at)
    ensures ps != "" && r == |ss| ==> forall at :: !Occurs(ss, ps, at)
    ensures ps == "" ==> r == |ss|
  {
    if |ps| > |ss| || |ps| == 0 {
      return |ss|;
    }
    hide Border, Strong, Occurs;
    var next := BuildNext(ps);
    var ii, jj := 0, 0;
    while ii < |ss| && jj < |ps|
      invariant Searching(ss, ps, ii, jj)
      decreases 2 * |ss| + jj - 2 * ii
    {
      if jj == -1 || ss[ii] == ps[jj] {
        SearchAdvances(ss, ps, ii, jj);
        ii := ii + 1;
        jj := jj + 1;
      } else {
        SearchFallsBack(ss, ps, ii, jj, next[jj]);
        jj := next[jj];
      }
    }
    r := if jj == |ps| then ii - jj else |ss|;
  }
}
