/**
 What a run of the senders does, read off its events: what has been submitted, what a stop leaves to
 be written, and in which order submissions reach the wire
 (ytlib/ytrpc/unifex_rpc/unifex_rpc_client.hpp:404-458).
 */
module SendHistory {
  import opened SendBuf

  // ---------- what is submitted ----------

  /** The submissions among the events, in order. */
  function Submissions(es: seq<Event>): seq<seq<Block>> {
    if es == [] then [] else (if es[0].Submit? then [es[0].blocks] else []) + Submissions(es[1..])
  }

  lemma StepSubmits(s: State, e: Event)
    requires CanHappen(s, e)
    ensures Apply(s, e).submitted == s.submitted + if e.Submit? then [e.blocks] else []
  {
  }

  /** Every submission counts, in the order of the events; nothing else does. */
  lemma {:induction false} SubmittedAre(s: State, es: seq<Event>)
    requires ValidRun(s, es)
    ensures After(s, es).submitted == s.submitted + Submissions(es)
    decreases |es|
  {
    hide Apply, CanHappen;
    if es != [] {
      StepSubmits(s, es[0]);
      SubmittedAre(Apply(s, es[0]), es[1..]);
      var first: seq<seq<Block>> := if es[0].Submit? then [es[0].blocks] else [];
      assert s.submitted + first + Submissions(es[1..]) == s.submitted + (first + Submissions(es[1..]));
    }
  }

  /** A submission is always possible. */
  lemma OpenToCallers(s: State, blocks: seq<Block>)
    ensures CanHappen(s, Submit(blocks)) && CanHappen(s, StopSession)
  {
  }

  // ---------- after a stop ----------

  lemma StepStaysOff(s: State, e: Event)
    requires CanHappen(s, e)
    ensures !s.run || e == StopSession ==> !Apply(s, e).run
  {
  }

  /** A session that has been stopped never runs again. */
  lemma {:induction false} StopsForGood(s: State, es: seq<Event>)
    requires ValidRun(s, es) && (!s.run || StopSession in es)
    ensures !After(s, es).run
    decreases |es|
  {
    hide Apply, CanHappen;
    if es != [] {
      StepStaysOff(s, es[0]);
      StopsForGood(Apply(s, es[0]), es[1..]);
    }
  }

  /** The task has read the run flag for the last time before its write. */
  predicate PastCheck(k: Task) {
    k.pc == WaitTake || k.pc == Taking || k.pc == TakeUnlock || k.pc == Collect || k.pc == Writing
  }

  /** The writes that task t may still complete once the session is off. */
  function Budget(s: State, t: nat): nat {
    if t < |s.tasks| && PastCheck(s.tasks[t]) then 1 else 0
  }

  /** The writes of task t among the events. */
  function Writes(es: seq<Event>, t: nat): nat {
    if es == [] then 0 else (if es[0] == Complete(t, true) then 1 else 0) + Writes(es[1..], t)
  }

  lemma StepSpends(s: State, e: Event, t: nat)
    requires !s.run && CanHappen(s, e)
    ensures (if e == Complete(t, true) then 1 else 0) + Budget(Apply(s, e), t) <= Budget(s, t)
  {
    if e.Submit? {
      assert !PastCheck(Apply(s, e).tasks[|s.tasks|]);
    }
  }

  /** After a stop every task completes at most the write that it was bound for. */
  lemma {:induction false} OneWriteEach(s: State, es: seq<Event>, t: nat)
    requires !s.run && ValidRun(s, es)
    ensures Writes(es, t) + Budget(After(s, es), t) <= Budget(s, t)
    decreases |es|
  {
    hide Apply, CanHappen, Budget;
    if es != [] {
      StepSpends(s, es[0], t);
      StepStaysOff(s, es[0]);
      OneWriteEach(Apply(s, es[0]), es[1..], t);
    }
  }

  /** Only a completed write changes what is on the wire, and it adds what its task holds. */
  lemma StepWrites(s: State, e: Event)
    requires CanHappen(s, e)
    ensures var now := Apply(s, e).written;
            if e.Complete? && e.ok then now.blocks == s.written.blocks + s.tasks[e.task].tmp.blocks
            else now == s.written
  {
  }

  /** Nobody is past reading the run flag. */
  ghost predicate NobodyBound(s: State) {
    forall t :: 0 <= t < |s.tasks| ==> !PastCheck(s.tasks[t])
  }

  lemma StepStaysUnbound(s: State, e: Event)
    requires !s.run && NobodyBound(s) && CanHappen(s, e)
    ensures NobodyBound(Apply(s, e)) && Apply(s, e).written == s.written
  {
    if e.Step? || e.Complete? {
      assert !PastCheck(s.tasks[e.task]);
    }
  }

  /** Then nothing reaches the wire any more, whatever is submitted and however the tasks interleave. */
  lemma {:induction false} SilentAfterStop(s: State, es: seq<Event>)
    requires !s.run && NobodyBound(s) && ValidRun(s, es)
    ensures NobodyBound(After(s, es)) && After(s, es).written == s.written
    decreases |es|
  {
    hide Apply, CanHappen, NobodyBound;
    if es != [] {
      StepStaysUnbound(s, es[0]);
      StepStaysOff(s, es[0]);
      SilentAfterStop(Apply(s, es[0]), es[1..]);
    }
  }

  /** The task has been told of a failed write and is about to stop the session. */
  predicate GivingUp(k: Task) {
    k.pc == Failing || k.pc == Stopping
  }

  lemma StepGivesUp(s: State, e: Event, t: nat)
    requires CanHappen(s, e)
    requires e == Complete(t, false) || !s.run || (t < |s.tasks| && GivingUp(s.tasks[t]))
    ensures var s' := Apply(s, e); !s'.run || (t < |s'.tasks| && GivingUp(s'.tasks[t]))
  {
  }

  /** A failed write stops the session: its task is about to do so, or it is off. */
  lemma {:induction false} FailureStops(s: State, es: seq<Event>, t: nat)
    requires ValidRun(s, es)
    requires Complete(t, false) in es || !s.run || (t < |s.tasks| && GivingUp(s.tasks[t]))
    ensures var s' := After(s, es); !s'.run || (t < |s'.tasks| && GivingUp(s'.tasks[t]))
    decreases |es|
  {
    hide Apply, CanHappen, GivingUp;
    if es != [] {
      if es[0] == Complete(t, false) || !s.run || (t < |s.tasks| && GivingUp(s.tasks[t])) {
        StepGivesUp(s, es[0], t);
      }
      FailureStops(Apply(s, es[0]), es[1..], t);
    }
  }

  // ---------- the order on the wire ----------

  /** What is on the wire stays there, and more comes behind it. */
  lemma {:induction false} WireOnlyGrows(s: State, es: seq<Event>)
    requires ValidRun(s, es)
    ensures s.written.blocks <= After(s, es).written.blocks
    decreases |es|
  {
    hide Apply, CanHappen;
    if es != [] {
      StepWrites(s, es[0]);
      WireOnlyGrows(Apply(s, es[0]), es[1..]);
    }
  }

  predicate Before(from: seq<nat>, a: nat, b: nat) {
    exists i, j :: 0 <= i < j < |from| && from[i] == a && from[j] == b
  }

  lemma BeforeInBoth(x: seq<nat>, y: seq<nat>, a: nat, b: nat)
    requires Before(x, a, b) || Before(y, a, b) || (a in x && b in y)
    ensures Before(x + y, a, b)
  {
    if Before(x, a, b) {
      var i, j :| 0 <= i < j < |x| && x[i] == a && x[j] == b;
      assert (x + y)[i] == a && (x + y)[j] == b;
    } else if Before(y, a, b) {
      var i, j :| 0 <= i < j < |y| && y[i] == a && y[j] == b;
      assert (x + y)[|x| + i] == a && (x + y)[|x| + j] == b;
    } else {
      var i :| 0 <= i < |x| && x[i] == a;
      var j :| 0 <= j < |y| && y[j] == b;
      assert (x + y)[i] == a && (x + y)[|x| + j] == b;
    }
  }

  /** The submissions a and b are together, a before b: in the queue, in what a task is to write, or on the wire. */
  ghost predicate Together(s: State, a: nat, b: nat) {
    || Before(s.queue.from, a, b) || Before(s.written.from, a, b)
    || exists t :: 0 <= t < |s.tasks| && Before(s.tasks[t].tmp.from, a, b)
  }

  lemma TaskKeepsTogether(s: State, t: nat, k: Task, a: nat, b: nat)
    requires k.pc != Done && k.pc != Writing
    requires s.queue.blocks == [] ==> s.queue == EMPTY
    requires BeforeTaking(k.pc) ==> k.tmp == EMPTY
    requires Before(s.queue.from, a, b) || Before(k.tmp.from, a, b)
    ensures Before(SharedAfter(s, t, k).queue.from, a, b) || Before(TaskAfter(s, k).tmp.from, a, b)
  {
    assert !Before([], a, b);
    if k.pc == Merging {
      BeforeInBoth(s.queue.from, k.own.from, a, b);
    } else if k.pc == Collect && Before(k.tmp.from, a, b) {
      BeforeInBoth(k.tmp.from, k.own.from, a, b);
    }
  }

  /** Other tasks keep what they are to write. */
  lemma StepKeepsTogether(s: State, t: nat, a: nat, b: nat)
    requires CanHappen(s, Step(t)) && Together(s, a, b)
    requires s.queue.blocks == [] ==> s.queue == EMPTY
    requires BeforeTaking(s.tasks[t].pc) ==> s.tasks[t].tmp == EMPTY
    ensures Together(TaskStep(s, t), a, b)
  {
    StepKeepsOthers(s, t);
    hide Before, TaskAfter, SharedAfter;
    var s' := TaskStep(s, t);
    if Before(s.queue.from, a, b) || Before(s.tasks[t].tmp.from, a, b) {
      TaskKeepsTogether(s, t, s.tasks[t], a, b);
      assert s'.tasks[t] == TaskAfter(s, s.tasks[t]);
    } else if !Before(s.written.from, a, b) {
      var u :| 0 <= u < |s.tasks| && Before(s.tasks[u].tmp.from, a, b);
      assert s'.tasks[u] == s.tasks[u];
    }
  }

  lemma StepKeepsOthers(s: State, t: nat)
    requires CanHappen(s, Step(t))
    ensures var s' := TaskStep(s, t);
            s'.written == s.written && s'.queue == SharedAfter(s, t, s.tasks[t]).queue && |s'.tasks| == |s.tasks|
  {
  }

  lemma CompleteKeepsTogether(s: State, t: nat, ok: bool, a: nat, b: nat)
    requires CanHappen(s, Complete(t, ok)) && Together(s, a, b)
    ensures Together(Apply(s, Complete(t, ok)), a, b)
  {
    var s' := Apply(s, Complete(t, ok));
    if Before(s.written.from, a, b) || Before(s.tasks[t].tmp.from, a, b) {
      BeforeInBoth(s.written.from, s.tasks[t].tmp.from, a, b);
      assert !ok ==> s'.tasks[t].tmp == s.tasks[t].tmp;
    } else if !Before(s.queue.from, a, b) {
      var u :| 0 <= u < |s.tasks| && Before(s.tasks[u].tmp.from, a, b);
      assert s'.tasks[u] == s.tasks[u];
    }
  }

  lemma ApplyKeepsTogether(s: State, e: Event, a: nat, b: nat)
    requires Inv(s) && CanHappen(s, e) && Together(s, a, b)
    ensures Together(Apply(s, e), a, b)
  {
    hide Before, TaskAfter, SharedAfter, Whole;
    match e
    case Submit(blocks) =>
      var s' := Apply(s, e);
      assert forall u :: 0 <= u < |s.tasks| ==> s'.tasks[u] == s.tasks[u];
    case Step(t) =>
      InvAt(s, t);
      BlankIsEmpty(s.queue, s.submitted);
      BlankIsEmpty(s.tasks[t].tmp, s.submitted);
      StepKeepsTogether(s, t, a, b);
    case Complete(t, ok) =>
      CompleteKeepsTogether(s, t, ok, a, b);
    case StopSession =>
  }

  lemma {:induction false} RunKeepsTogether(s: State, es: seq<Event>, a: nat, b: nat)
    requires Inv(s) && ValidRun(s, es) && Together(s, a, b)
    requires forall i :: 0 <= i < |es| ==> NonEmpty(es[i])
    ensures Inv(After(s, es)) && Together(After(s, es), a, b)
    decreases |es|
  {
    hide Inv, Apply, CanHappen, Together, NonEmpty;
    if es != [] {
      ApplyKeeps(s, es[0]);
      ApplyKeepsTogether(s, es[0], a, b);
      RunKeepsTogether(Apply(s, es[0]), es[1..], a, b);
    }
  }

  lemma {:induction false} CarriedAt(tasks: seq<Task>, t: nat, b: nat)
    requires t < |tasks| && b in tasks[t].tmp.from
    ensures CarriedBy(tasks)[b] >= 1
  {
    var n := |tasks| - 1;
    if t == n {
      assert b in multiset(tasks[n].tmp.from);
      assert Carried(tasks[n])[b] >= 1;
    } else {
      assert tasks[..n][t] == tasks[t];
      CarriedAt(tasks[..n], t, b);
    }
  }

  /** What is written is nowhere else. */
  lemma WrittenOnly(s: State, t: nat, b: nat)
    requires Inv(s) && b in s.written.from
    ensures b !in s.queue.from && (t < |s.tasks| ==> b !in s.tasks[t].tmp.from)
  {
    IdsAt(|s.tasks|, b);
    assert Conserved(s);
    hide Inv, Whole, Carried;
    assert b in multiset(s.written.from);
    assert b in s.queue.from ==> b in multiset(s.queue.from);
    if t < |s.tasks| && b in s.tasks[t].tmp.from {
      CarriedAt(s.tasks, t, b);
    }
  }

  lemma WrittenTogether(s: State, a: nat, b: nat)
    requires Inv(s) && Together(s, a, b) && b in s.written.from
    ensures Before(s.written.from, a, b)
  {
    hide Inv;
    WrittenOnly(s, 0, b);
    forall t | 0 <= t < |s.tasks|
      ensures b !in s.tasks[t].tmp.from
    {
      WrittenOnly(s, t, b);
    }
  }

  /** No overtaking: a submission that is merged behind another one reaches the wire behind it or not at all. */
  lemma NoOvertaking(es: seq<Event>, t: nat, more: seq<Event>, a: nat, b: nat)
    requires Run(es) && CanHappen(After(INITIAL, es), Step(t))
    requires var s := After(INITIAL, es);
             s.tasks[t].pc == Merging && a in s.queue.from && b in s.tasks[t].own.from
             && ValidRun(TaskStep(s, t), more)
    requires forall i :: 0 <= i < |more| ==> NonEmpty(more[i])
    ensures var s' := After(TaskStep(After(INITIAL, es), t), more);
            b in s'.written.from ==> Before(s'.written.from, a, b)
  {
    var s := After(INITIAL, es);
    InitialInv();
    RunKeeps(INITIAL, es);
    ApplyKeeps(s, Step(t));
    BeforeInBoth(s.queue.from, s.tasks[t].own.from, a, b);
    MergedTogether(s, t, a, b);
    hide Inv, Run, TaskStep, Together, Before;
    RunKeepsTogether(TaskStep(s, t), more, a, b);
    var s' := After(TaskStep(s, t), more);
    if b in s'.written.from {
      WrittenTogether(s', a, b);
    }
  }

  lemma MergedTogether(s: State, t: nat, a: nat, b: nat)
    requires CanHappen(s, Step(t)) && s.tasks[t].pc == Merging
    requires Before(s.queue.from + s.tasks[t].own.from, a, b)
    ensures Together(TaskStep(s, t), a, b)
  {
  }
}
