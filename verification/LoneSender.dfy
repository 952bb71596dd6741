/**
 A single submission to a quiet session (ytlib/ytrpc/unifex_rpc/unifex_rpc_client.hpp:404-458): why
 the hand-off of SendBuf.dfy needs submissions of at least one block. Without blocks the sender
 leaves at line 434 before it could take back the flag that it has set at line 407.
 */
module LoneSender {
  import opened SendBuf

  /** The events of one sender whose writes succeed. */
  predicate OnlyBy(es: seq<Event>, id: nat) {
    forall i :: 0 <= i < |es| ==> es[i] == Step(id) || es[i] == Complete(id, true)
  }

  /** How far the sender has come, with the blocks that were on the wire before it. */
  predicate Phase(k: Task, sending: bool, written: seq<Block>, blocks: seq<Block>, before: seq<Block>) {
    match k.pc
    case Start => !sending && Unsent(k, written, blocks, before)
    case Check | WaitTake | Taking => sending && (Unsent(k, written, blocks, before) || Sent(k, written, blocks, before))
    case TakeUnlock | Collect =>
      if k.merged then !sending && Sent(k, written, blocks, before) else sending && Unsent(k, written, blocks, before)
    case Writing => sending && k.merged && k.tmp.blocks == blocks != [] && written == before
    case Done => written == before + blocks && (sending <==> blocks == [])
    case _ => false
  }

  predicate Unsent(k: Task, written: seq<Block>, blocks: seq<Block>, before: seq<Block>) {
    !k.merged && k.own.blocks == blocks && k.tmp.blocks == [] && written == before
  }

  predicate Sent(k: Task, written: seq<Block>, blocks: seq<Block>, before: seq<Block>) {
    k.merged && k.tmp.blocks == [] && written == before + blocks && blocks != []
  }

  /** Everybody but the last sender has left. */
  ghost predicate Alone(s: State, id: nat, blocks: seq<Block>, before: seq<Block>) {
    && |s.tasks| == id + 1 && (forall t :: 0 <= t < id ==> s.tasks[t].pc == Done)
    && s.run && s.queue.blocks == []
    && s.holder == (if HoldsLock(s.tasks[id]) then HeldBy(id) else Free)
    && Phase(s.tasks[id], s.sending, s.written.blocks, blocks, before)
  }

  /** Nobody is in flight, and nothing is left behind. */
  ghost predicate Clean(s: State) {
    s.run && Quiescent(s) && s.queue.blocks == [] && !s.sending && s.holder == Free
  }

  ghost predicate QuietRun(es: seq<Event>) {
    Run(es) && After(INITIAL, es).run && Quiescent(After(INITIAL, es))
  }

  lemma QuietIsClean(es: seq<Event>)
    requires QuietRun(es)
    ensures Clean(After(INITIAL, es))
  {
    hide Whole, Quiescent;
    EverythingDelivered(es, 0);
  }

  lemma SubmitIsAlone(s: State, blocks: seq<Block>)
    requires Clean(s)
    ensures Alone(Apply(s, Submit(blocks)), |s.tasks|, blocks, s.written.blocks)
  {
  }

  lemma AloneStep(s: State, e: Event, id: nat, blocks: seq<Block>, before: seq<Block>)
    requires Alone(s, id, blocks, before) && CanHappen(s, e) && (e == Step(id) || e == Complete(id, true))
    ensures Alone(Apply(s, e), id, blocks, before)
  {
    PhaseStep(s, e, id, blocks, before);
    hide Phase, Apply;
    OthersStay(s, e, id);
  }

  lemma OthersStay(s: State, e: Event, id: nat)
    requires CanHappen(s, e) && (e == Step(id) || e == Complete(id, true))
    ensures var s' := Apply(s, e);
            |s'.tasks| == |s.tasks| && forall t :: 0 <= t < |s.tasks| && t != id ==> s'.tasks[t] == s.tasks[t]
  {
  }

  lemma PhaseStep(s: State, e: Event, id: nat, blocks: seq<Block>, before: seq<Block>)
    requires CanHappen(s, e) && (e == Step(id) || e == Complete(id, true))
    requires s.run && s.queue.blocks == []
    requires s.holder == if HoldsLock(s.tasks[id]) then HeldBy(id) else Free
    requires Phase(s.tasks[id], s.sending, s.written.blocks, blocks, before)
    ensures var s' := Apply(s, e);
            && s'.run && s'.queue.blocks == []
            && s'.holder == (if HoldsLock(s'.tasks[id]) then HeldBy(id) else Free)
            && Phase(s'.tasks[id], s'.sending, s'.written.blocks, blocks, before)
  {
    assert [] + blocks == blocks && before + [] == before;
  }

  lemma {:induction false} AloneRuns(s: State, es: seq<Event>, id: nat, blocks: seq<Block>, before: seq<Block>)
    requires Alone(s, id, blocks, before) && ValidRun(s, es) && OnlyBy(es, id)
    ensures Alone(After(s, es), id, blocks, before)
    decreases |es|
  {
    hide Alone, Apply, CanHappen;
    if es != [] {
      AloneStep(s, es[0], id, blocks, before);
      AloneRuns(Apply(s, es[0]), es[1..], id, blocks, before);
    }
  }

  /** What a lone sender leaves behind: its blocks are written, and the flag is free if there were any. */
  lemma LoneSubmission(es: seq<Event>, blocks: seq<Block>, more: seq<Event>)
    requires QuietRun(es) && LeadsToEnd(After(INITIAL, es), blocks, more)
    ensures var s := After(INITIAL, es);
            var s' := After(Apply(s, Submit(blocks)), more);
            && s'.run && Quiescent(s') && s'.queue.blocks == [] && s'.holder == Free
            && s'.written.blocks == s.written.blocks + blocks
            && (s'.sending <==> blocks == [])
  {
    hide Clean, LeadsToEnd;
    QuietIsClean(es);
    LoneFrom(After(INITIAL, es), blocks, more);
  }

  /** Events of the last sender alone that bring it to its end. */
  ghost predicate LeadsToEnd(s: State, blocks: seq<Block>, more: seq<Event>) {
    var s1, id := Apply(s, Submit(blocks)), |s.tasks|;
    ValidRun(s1, more) && OnlyBy(more, id) && |After(s1, more).tasks| > id && After(s1, more).tasks[id].pc == Done
  }

  lemma LoneFrom(s: State, blocks: seq<Block>, more: seq<Event>)
    requires Clean(s) && LeadsToEnd(s, blocks, more)
    ensures var s' := After(Apply(s, Submit(blocks)), more);
            && s'.run && Quiescent(s') && s'.queue.blocks == [] && s'.holder == Free
            && s'.written.blocks == s.written.blocks + blocks
            && (s'.sending <==> blocks == [])
  {
    SubmitIsAlone(s, blocks);
    hide Apply, Clean;
    AloneRuns(Apply(s, Submit(blocks)), more, |s.tasks|, blocks, s.written.blocks);
  }

  // ---------- there is such a way to the end ----------

  function StepsLeft(k: Task): nat {
    if k.pc == Writing then 10 else Rank(k.pc) + if k.merged || k.pc == Done then 0 else 10
  }

  lemma NextStep(s: State, id: nat, blocks: seq<Block>, before: seq<Block>) returns (e: Event)
    requires Alone(s, id, blocks, before) && s.tasks[id].pc != Done
    ensures (e == Step(id) || e == Complete(id, true)) && CanHappen(s, e)
    ensures Alone(Apply(s, e), id, blocks, before) && StepsLeft(Apply(s, e).tasks[id]) < StepsLeft(s.tasks[id])
  {
    e := if s.tasks[id].pc == Writing then Complete(id, true) else Step(id);
    AloneStep(s, e, id, blocks, before);
    FewerLeft(s, e, id, blocks, before);
  }

  lemma FewerLeft(s: State, e: Event, id: nat, blocks: seq<Block>, before: seq<Block>)
    requires CanHappen(s, e) && (e == Step(id) || e == Complete(id, true))
    requires s.run && Phase(s.tasks[id], s.sending, s.written.blocks, blocks, before)
    ensures StepsLeft(Apply(s, e).tasks[id]) < StepsLeft(s.tasks[id])
  {
  }

  /** The lone sender can be driven to its end. */
  lemma {:induction false} LoneSenderEnds(s: State, id: nat, blocks: seq<Block>, before: seq<Block>) returns (more: seq<Event>)
    requires Alone(s, id, blocks, before)
    ensures ValidRun(s, more) && OnlyBy(more, id)
    ensures Alone(After(s, more), id, blocks, before) && After(s, more).tasks[id].pc == Done
    decreases StepsLeft(s.tasks[id])
  {
    if s.tasks[id].pc == Done {
      more := [];
    } else {
      var e := NextStep(s, id, blocks, before);
      hide Alone, Apply, CanHappen;
      var rest := LoneSenderEnds(Apply(s, e), id, blocks, before);
      more := [e] + rest;
      assert more[1..] == rest;
    }
  }

  // ---------- the flag that nobody takes back ----------

  predicate Waiting(k: Task) {
    || k.pc == Start || k.pc == WaitMerge || k.pc == Merging || k.pc == MergeUnlock || k.pc == Reclaim || k.pc == Done
  }

  /** The flag is set, and nobody is on the way to clear it. */
  ghost predicate Stuck(s: State) {
    s.sending && forall t :: 0 <= t < |s.tasks| ==> Waiting(s.tasks[t])
  }

  lemma StuckStep(s: State, e: Event)
    requires Stuck(s) && CanHappen(s, e)
    ensures Stuck(Apply(s, e)) && Apply(s, e).written == s.written
  {
    if e.Step? || e.Complete? {
      assert Waiting(s.tasks[e.task]);
    }
  }

  /** From then on nothing is written any more, whatever is submitted and however the tasks interleave. */
  lemma {:induction false} StuckForever(s: State, es: seq<Event>)
    requires Stuck(s) && ValidRun(s, es)
    ensures Stuck(After(s, es)) && After(s, es).written == s.written
    decreases |es|
  {
    hide Stuck, Apply, CanHappen;
    if es != [] {
      StuckStep(s, es[0]);
      StuckForever(Apply(s, es[0]), es[1..]);
    }
  }

  /** Nothing is written in any continuation, and the flag stays set. */
  ghost predicate Wedged(s: State) {
    forall later :: ValidRun(s, later) ==> After(s, later).sending && After(s, later).written == s.written
  }

  lemma StuckIsWedged(s: State)
    requires Stuck(s)
    ensures Wedged(s)
  {
    forall later | ValidRun(s, later)
      ensures After(s, later).sending && After(s, later).written == s.written
    {
      StuckForever(s, later);
    }
  }

  /**
   After any run that ends quiet: when a submission without blocks has come to its end, the session
   is wedged.
   */
  lemma EmptySubmissionWedges(es: seq<Event>, more: seq<Event>)
    requires QuietRun(es) && LeadsToEnd(After(INITIAL, es), [], more)
    ensures Wedged(After(Apply(After(INITIAL, es), Submit([])), more))
  {
    hide Wedged, Apply, Whole;
    LoneSubmission(es, [], more);
    StuckIsWedged(After(Apply(After(INITIAL, es), Submit([])), more));
  }

  /** Every submission to a quiet session can come to its end. */
  lemma LoneSenderCanEnd(es: seq<Event>, blocks: seq<Block>) returns (more: seq<Event>)
    requires QuietRun(es)
    ensures LeadsToEnd(After(INITIAL, es), blocks, more)
  {
    QuietIsClean(es);
    var s := After(INITIAL, es);
    SubmitIsAlone(s, blocks);
    hide Apply, QuietRun, Clean, Phase;
    more := LoneSenderEnds(Apply(s, Submit(blocks)), |s.tasks|, blocks, s.written.blocks);
  }
}
