// Whole runs of a timer: every task that is kept comes out of exactly one tick, the one at its
// FireTick, and every other task is run at once.
module TimerRuns {
  import opened TimingWheel

  // What callers and the timer thread do, in the order in which they get the lock.
  datatype Call = Schedule(tick: nat, id: nat) | Advance

  // No two tasks are the same.
  ghost predicate Distinct(calls: seq<Call>) {
    forall i, j :: 0 <= i < j < |calls| && calls[i].Schedule? && calls[j].Schedule? ==> calls[i].id != calls[j].id
  }

  // The current tick after the calls.
  function Ticks(calls: seq<Call>): nat {
    if calls == [] then 0 else Ticks(calls[..|calls| - 1]) + if calls[|calls| - 1].Advance? then 1 else 0
  }

  // The tasks kept so far, with the tick at which each of them fires.
  ghost function DueAfter(calls: seq<Call>, size: nat): Due
    requires size > 0
  {
    if calls == [] then map[]
    else
      var init, last := calls[..|calls| - 1], calls[|calls| - 1];
      if last.Advance? || last.tick < Ticks(init) then DueAfter(init, size)
      else DueAfter(init, size)[last.id := FireTick(Ticks(init), last.tick, size)]
  }

  // The tasks that came too late to be kept.
  function LateAfter(calls: seq<Call>): set<nat> {
    if calls == [] then {}
    else
      var init, last := calls[..|calls| - 1], calls[|calls| - 1];
      LateAfter(init) + if last.Schedule? && last.tick < Ticks(init) then {last.id} else {}
  }

  predicate Named(calls: seq<Call>, id: nat) {
    exists i :: 0 <= i < |calls| && calls[i].Schedule? && calls[i].id == id
  }

  lemma NamedMore(calls: seq<Call>, id: nat)
    requires calls != [] && Named(calls[..|calls| - 1], id)
    ensures Named(calls, id)
  {
    var i :| 0 <= i < |calls| - 1 && calls[..|calls| - 1][i].Schedule? && calls[..|calls| - 1][i].id == id;
    assert calls[i].id == id;
  }

  lemma {:induction false} OnlyNamed(calls: seq<Call>, size: nat, id: nat)
    requires size > 0 && (id in DueAfter(calls, size) || id in LateAfter(calls))
    ensures Named(calls, id)
  {
    var init, last := calls[..|calls| - 1], calls[|calls| - 1];
    if last.Schedule? && last.id == id {
      assert calls[|calls| - 1].id == id;
    } else {
      OnlyNamed(init, size, id);
      NamedMore(calls, id);
    }
  }

  lemma NotNamedBefore(calls: seq<Call>, i: nat)
    requires Distinct(calls) && i < |calls| && calls[i].Schedule?
    ensures !Named(calls[..i], calls[i].id)
  {}

  // What the call number i does to its task, read off the whole run.
  lemma {:induction false} CallDecides(calls: seq<Call>, i: nat, size: nat)
    requires size > 0 && Distinct(calls) && i < |calls| && calls[i].Schedule?
    ensures var now, tick, id := Ticks(calls[..i]), calls[i].tick, calls[i].id;
            && (id in LateAfter(calls) <==> tick < now)
            && (id in DueAfter(calls, size) <==> tick >= now)
            && (tick >= now ==> DueAfter(calls, size)[id] == FireTick(now, tick, size))
    decreases |calls|
  {
    var n := |calls| - 1;
    var init, last, id := calls[..n], calls[n], calls[i].id;
    hide FireTick;
    if i == n {
      NotNamedBefore(calls, i);
      if id in DueAfter(init, size) || id in LateAfter(init) {
        OnlyNamed(init, size, id);
      }
    } else {
      assert init[i] == calls[i] && init[..i] == calls[..i];
      CallDecides(init, i, size);
      assert last.Schedule? ==> last.id != id;
    }
  }

  // ---------------------------------------------------------------- the run

  // What has come out of the ticks so far.
  ghost predicate Recorded(fired: seq<seq<Task>>, due: Due) {
    forall n :: 0 <= n < |fired| ==> Exactly(fired[n], due, n)
  }

  ghost predicate Exactly(ts: seq<Task>, due: Due, n: nat) {
    NoDuplicates(ts) && forall id :: Holds(ts, id) <==> id in due && due[id] == n
  }

  // The task of call number i has come out of the tick at its FireTick and of no other, unless it
  // came too late and was run at once.
  ghost predicate Served(calls: seq<Call>, i: nat, size: nat, fired: seq<seq<Task>>, atOnce: set<nat>)
    requires size > 0 && i < |calls| && calls[i].Schedule?
  {
    var now, tick, id := Ticks(calls[..i]), calls[i].tick, calls[i].id;
    && (id in atOnce <==> tick < now)
    && forall n :: 0 <= n < |fired| ==> (Holds(fired[n], id) <==> tick >= now && n == FireTick(now, tick, size))
  }

  lemma RecordedLater(fired: seq<seq<Task>>, due: Due, id: nat, fires: nat)
    requires Recorded(fired, due) && id !in due && fires >= |fired|
    ensures Recorded(fired, due[id := fires])
  {
    hide Holds, NoDuplicates;
    forall n | 0 <= n < |fired|
      ensures Exactly(fired[n], due[id := fires], n)
    {
      assert Exactly(fired[n], due, n);
    }
  }

  lemma RecordedMore(fired: seq<seq<Task>>, ts: seq<Task>, due: Due)
    requires Recorded(fired, due) && Exactly(ts, due, |fired|)
    ensures Recorded(fired + [ts], due)
  {
    hide Exactly;
  }

  lemma ServedAtLast(calls: seq<Call>, i: nat, size: nat, fired: seq<seq<Task>>)
    requires size > 0 && Distinct(calls) && i < |calls| && calls[i].Schedule?
    requires Recorded(fired, DueAfter(calls, size))
    ensures Served(calls, i, size, fired, LateAfter(calls))
  {
    CallDecides(calls, i, size);
    hide Holds, NoDuplicates, FireTick, DueAfter, LateAfter, Distinct;
    var due := DueAfter(calls, size);
    assert forall n :: 0 <= n < |fired| ==> Exactly(fired[n], due, n);
  }

  // Whatever the calls and their order.
  method Play(size: nat, calls: seq<Call>) returns (fired: seq<seq<Task>>, atOnce: set<nat>)
    requires size > 0 && Distinct(calls)
    ensures |fired| == Ticks(calls)
    ensures forall i :: 0 <= i < |calls| && calls[i].Schedule? ==> Served(calls, i, size, fired, atOnce)
    ensures forall n :: 0 <= n < |fired| ==> NoDuplicates(fired[n]) && forall id :: Holds(fired[n], id) ==> Named(calls, id)
  {
    hide Holds, NoDuplicates, Exactly, Recorded, FireTick, Served, Named, Distinct;
    var timer := new Timer(size);
    fired, atOnce := [], {};
    NothingRecorded();
    for k := 0 to |calls|
      invariant timer.Valid() && timer.size == size && fresh(timer)
      invariant timer.currentTickCount == Ticks(calls[..k]) == |fired|
      invariant timer.due == DueAfter(calls[..k], size) && atOnce == LateAfter(calls[..k])
      invariant Recorded(fired, timer.due)
    {
      OneCallMore(calls, k, size);
      match calls[k]
      case Schedule(tick, id) =>
        FreshTask(calls, k, size);
        ghost var due := timer.due;
        var late := timer.ExecuteAt(tick, id);
        if late {
          atOnce := atOnce + {id};
        } else {
          FiresOnTime(|fired|, tick, size);
          RecordedLater(fired, due, id, FireTick(|fired|, tick, size));
        }
      case Advance =>
        var ts := timer.Tick();
        TickRecords(ts, timer.due, |fired|);
        RecordedMore(fired, ts, timer.due);
        fired := fired + [ts];
    }
    assert calls[..|calls|] == calls;
    forall i | 0 <= i < |calls| && calls[i].Schedule?
      ensures Served(calls, i, size, fired, atOnce)
    {
      ServedAtLast(calls, i, size, fired);
    }
    OnlyNamedFire(calls, size, fired);
  }

  lemma NothingRecorded()
    ensures Recorded([], map[])
  {}

  lemma TickRecords(ts: seq<Task>, due: Due, n: nat)
    requires NoDuplicates(ts) && forall id :: Holds(ts, id) <==> id in due && due[id] == n
    ensures Exactly(ts, due, n)
  {}

  lemma OneCallMore(calls: seq<Call>, k: nat, size: nat)
    requires k < |calls| && size > 0
    ensures var init, last := calls[..k], calls[k];
            && Ticks(calls[..k + 1]) == Ticks(init) + (if last.Advance? then 1 else 0)
            && LateAfter(calls[..k + 1])
            == LateAfter(init) + (if last.Schedule? && last.tick < Ticks(init) then {last.id} else {})
            && DueAfter(calls[..k + 1], size)
            == if last.Advance? || last.tick < Ticks(init) then DueAfter(init, size)
               else DueAfter(init, size)[last.id := FireTick(Ticks(init), last.tick, size)]
  {
    hide FireTick;
    assert calls[..k + 1][..k] == calls[..k];
  }

  lemma FreshTask(calls: seq<Call>, k: nat, size: nat)
    requires Distinct(calls) && k < |calls| && calls[k].Schedule? && size > 0
    ensures calls[k].id !in DueAfter(calls[..k], size)
  {
    NotNamedBefore(calls, k);
    if calls[k].id in DueAfter(calls[..k], size) {
      OnlyNamed(calls[..k], size, calls[k].id);
    }
  }

  lemma OnlyNamedFire(calls: seq<Call>, size: nat, fired: seq<seq<Task>>)
    requires size > 0 && Recorded(fired, DueAfter(calls, size))
    ensures forall n :: 0 <= n < |fired| ==> NoDuplicates(fired[n]) && forall id :: Holds(fired[n], id) ==> Named(calls, id)
  {
    hide Holds, NoDuplicates, Named, DueAfter;
    forall n | 0 <= n < |fired|
      ensures NoDuplicates(fired[n]) && forall id :: Holds(fired[n], id) ==> Named(calls, id)
    {
      assert Exactly(fired[n], DueAfter(calls, size), n);
      forall id | Holds(fired[n], id)
        ensures Named(calls, id)
      {
        OnlyNamed(calls, size, id);
      }
    }
  }
}
