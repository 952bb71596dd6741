/**
 The hand-off protocol of UnifexRpcClient::Session::SendBuf
 (ytlib/ytrpc/unifex_rpc/unifex_rpc_client.hpp:404-458). Any number of SendBuf tasks share the
 atomic sending_flag_, an async mutex and the queue send_buffer_vec_. Every atomic exchange,
 lock, unlock, merge, swap and write is one step; tasks interleave in any order.
 */
module SendBuf {

  type Block = nat

  /** A BufferVec: its blocks and, as a history variable, the submissions they came from. */
  datatype Vec = Vec(blocks: seq<Block>, from: seq<nat>)

  const EMPTY := Vec([], [])

  function Merge(a: Vec, b: Vec): Vec {
    Vec(a.blocks + b.blocks, a.from + b.from)
  }

  /** Where a task stands; the comments give the source lines of the step that comes next. */
  datatype Pc =
    | Start       // 407: first exchange
    | WaitMerge   // 408: async_lock
    | Merging     // 409: merge into the queue
    | MergeUnlock // 410: unlock
    | Reclaim     // 412-413: second exchange
    | Check       // 416: while (run_flag_)
    | WaitTake    // 419: async_lock
    | Taking      // 420-424: clear the flag or swap the queue out
    | TakeUnlock  // 425: unlock
    | Collect     // 429-435: add the task's own buffers, leave if there is nothing to write
    | Writing     // 442-444: async_write is under way
    | Failing     // 448: clear the flag after a write error
    | Stopping    // 449: Stop()
    | Done

  datatype Task = Task(pc: Pc, merged: bool, own: Vec, tmp: Vec)

  datatype Holder = Free | HeldBy(task: nat)

  datatype State = State(
    run: bool,
    sending: bool,
    holder: Holder,
    queue: Vec,
    written: Vec,
    submitted: seq<seq<Block>>,
    tasks: seq<Task>)

  const INITIAL := State(true, false, Free, EMPTY, EMPTY, [], [])

  datatype Event =
    | Submit(blocks: seq<Block>)      // a new SendBuf task
    | Step(task: nat)                 // a task takes its next step
    | Complete(task: nat, ok: bool)   // a pending async_write finishes
    | StopSession                     // Stop() called from elsewhere

  predicate CanHappen(s: State, e: Event) {
    match e
    case Submit(_) => true
    case Step(t) =>
      && t < |s.tasks|
      && s.tasks[t].pc != Done && s.tasks[t].pc != Writing
      && (s.tasks[t].pc == WaitMerge || s.tasks[t].pc == WaitTake ==> s.holder == Free)
    case Complete(t, _) => t < |s.tasks| && s.tasks[t].pc == Writing
    case StopSession => true
  }

  /** The local part of a task's next step. */
  function TaskAfter(s: State, k: Task): Task
    requires k.pc != Done && k.pc != Writing
  {
    match k.pc
    case Start => k.(pc := if s.sending then WaitMerge else Check)
    case WaitMerge => k.(pc := Merging)
    case Merging => k.(pc := MergeUnlock, own := EMPTY)
    case MergeUnlock => k.(pc := Reclaim, merged := true)
    case Reclaim => k.(pc := if s.sending then Done else Check)
    case Check => k.(pc := if s.run then WaitTake else Done, tmp := EMPTY)
    case WaitTake => k.(pc := Taking)
    case Taking => k.(pc := TakeUnlock, tmp := if s.queue.blocks == [] then k.tmp else s.queue)
    case TakeUnlock => k.(pc := Collect)
    case Collect =>
      var tmp := if k.merged then k.tmp else Merge(k.tmp, k.own);
      k.(pc := if tmp.blocks == [] then Done else Writing,
         merged := true, own := if k.merged then k.own else EMPTY, tmp := tmp)
    case Failing => k.(pc := Stopping)
    case Stopping => k.(pc := Done)
  }

  /** The shared part: the flag, the mutex and the queue. */
  function SharedAfter(s: State, t: nat, k: Task): State
    requires k.pc != Done && k.pc != Writing
  {
    match k.pc
    case Start | Reclaim => s.(sending := true)
    case WaitMerge | WaitTake => s.(holder := HeldBy(t))
    case MergeUnlock | TakeUnlock => s.(holder := Free)
    case Merging => s.(queue := Merge(s.queue, k.own))
    case Taking =>
      if s.queue.blocks != [] then s.(queue := EMPTY)
      else if k.merged then s.(sending := false) else s
    case Failing => s.(sending := false)
    case Stopping => s.(run := false)
    case Check | Collect => s
  }

  function TaskStep(s: State, t: nat): State
    requires CanHappen(s, Step(t))
  {
    var k := s.tasks[t];
    SharedAfter(s, t, k).(tasks := s.tasks[t := TaskAfter(s, k)])
  }

  function Apply(s: State, e: Event): State
    requires CanHappen(s, e)
  {
    match e
    case Submit(blocks) =>
      var id := |s.tasks|;
      s.(submitted := s.submitted + [blocks],
         tasks := s.tasks + [Task(Start, false, Vec(blocks, [id]), EMPTY)])
    case Step(t) => TaskStep(s, t)
    case Complete(t, ok) =>
      var k := s.tasks[t];
      if ok then s.(written := Merge(s.written, k.tmp), tasks := s.tasks[t := k.(pc := Check, tmp := EMPTY)])
      else s.(tasks := s.tasks[t := k.(pc := Failing)])
    case StopSession => s.(run := false)
  }

  ghost predicate ValidRun(s: State, es: seq<Event>)
    decreases |es|
  {
    es == [] || (CanHappen(s, es[0]) && ValidRun(Apply(s, es[0]), es[1..]))
  }

  ghost function After(s: State, es: seq<Event>): State
    requires ValidRun(s, es)
    decreases |es|
  {
    if es == [] then s else After(Apply(s, es[0]), es[1..])
  }

  // ---------- what every step keeps ----------

  /** The task that owns the write side: it passed an exchange that found the flag clear and has not cleared it since. */
  predicate Leads(k: Task) {
    match k.pc
    case Check | WaitTake | Taking | Writing | Failing => true
    case TakeUnlock | Collect => k.tmp.blocks != [] || !k.merged
    case _ => false
  }

  predicate HoldsLock(k: Task) {
    k.pc == Merging || k.pc == MergeUnlock || k.pc == Taking || k.pc == TakeUnlock
  }

  /** A task that will look at the flag, or stop the session, after its merge. */
  predicate WillRescue(k: Task) {
    k.pc == MergeUnlock || k.pc == Reclaim || k.pc == Stopping
  }

  ghost predicate Exclusive(s: State) {
    && (forall t :: 0 <= t < |s.tasks| ==> (HoldsLock(s.tasks[t]) <==> s.holder == HeldBy(t)))
    && (s.holder.HeldBy? ==> s.holder.task < |s.tasks|)
    && (forall t, u :: 0 <= t < |s.tasks| && 0 <= u < |s.tasks| && Leads(s.tasks[t]) && Leads(s.tasks[u]) ==> t == u)
    && (forall t :: 0 <= t < |s.tasks| && Leads(s.tasks[t]) ==> s.sending)
  }

  ghost predicate Covered(s: State) {
    && (s.run && s.sending ==> exists t :: 0 <= t < |s.tasks| && Leads(s.tasks[t]))
    && (s.run && s.queue.blocks != [] && !s.sending ==> exists t :: 0 <= t < |s.tasks| && WillRescue(s.tasks[t]))
  }

  predicate BeforeTaking(pc: Pc) {
    || pc == Start || pc == WaitMerge || pc == Merging || pc == MergeUnlock || pc == Reclaim
    || pc == Check || pc == WaitTake || pc == Taking
  }

  /** Which local buffers can be non-empty where. */
  predicate TaskOk(k: Task, run: bool) {
    && (k.pc == Start || k.pc == WaitMerge || k.pc == Merging ==> !k.merged && k.own.blocks != [])
    && (k.pc == MergeUnlock || k.pc == Reclaim || k.pc == Writing || k.pc == Failing || k.pc == Stopping || k.merged
        ==> k.own.blocks == [])
    && (k.pc == Reclaim || k.pc == Writing || k.pc == Failing || k.pc == Stopping ==> k.merged)
    && (k.pc != Done && !k.merged ==> k.pc == MergeUnlock || k.own.blocks != [])
    && (k.pc == Writing ==> k.tmp.blocks != [])
    && (BeforeTaking(k.pc) ==> k.tmp.blocks == [])
    && (k.pc == Done && run ==> k.own.blocks == [] && k.tmp.blocks == [])
  }

  ghost predicate TasksOk(s: State) {
    forall t :: 0 <= t < |s.tasks| ==> TaskOk(s.tasks[t], s.run)
  }

  /** The blocks of the listed submissions, one after the other. */
  ghost function Flatten(from: seq<nat>, submitted: seq<seq<Block>>): seq<Block>
    requires forall i :: 0 <= i < |from| ==> from[i] < |submitted|
  {
    if from == [] then [] else submitted[from[0]] + Flatten(from[1..], submitted)
  }

  /** A vector holds whole submissions, unbroken and in order. */
  ghost predicate Whole(v: Vec, submitted: seq<seq<Block>>) {
    && (forall i :: 0 <= i < |v.from| ==> v.from[i] < |submitted|)
    && v.blocks == Flatten(v.from, submitted)
    && (v.from == [] <==> v.blocks == [])
  }

  ghost predicate AllWhole(s: State) {
    && |s.submitted| == |s.tasks|
    && Whole(s.queue, s.submitted) && Whole(s.written, s.submitted)
    && forall t :: 0 <= t < |s.tasks| ==> Whole(s.tasks[t].own, s.submitted) && Whole(s.tasks[t].tmp, s.submitted)
  }

  ghost function Carried(k: Task): multiset<nat> {
    multiset(k.own.from) + multiset(k.tmp.from)
  }

  ghost function CarriedBy(tasks: seq<Task>): multiset<nat> {
    if tasks == [] then multiset{} else CarriedBy(tasks[..|tasks| - 1]) + Carried(tasks[|tasks| - 1])
  }

  ghost function Ids(n: nat): multiset<nat> {
    if n == 0 then multiset{} else Ids(n - 1) + multiset{n - 1}
  }

  /** Every submission is in exactly one place: written, queued, or in the hands of one task. */
  ghost predicate Conserved(s: State) {
    multiset(s.written.from) + multiset(s.queue.from) + CarriedBy(s.tasks) == Ids(|s.tasks|)
  }

  ghost predicate Inv(s: State) {
    Exclusive(s) && Covered(s) && TasksOk(s) && AllWhole(s) && Conserved(s)
  }

  // ---------- preservation ----------

  lemma {:induction false} FlattenAppend(a: seq<nat>, b: seq<nat>, submitted: seq<seq<Block>>)
    requires forall i :: 0 <= i < |a| ==> a[i] < |submitted|
    requires forall i :: 0 <= i < |b| ==> b[i] < |submitted|
    ensures Flatten(a + b, submitted) == Flatten(a, submitted) + Flatten(b, submitted)
  {
    if a == [] {
      assert a + b == b;
    } else {
      FlattenAppend(a[1..], b, submitted);
      assert (a + b)[1..] == a[1..] + b;
      assert (a + b)[0] == a[0];
    }
  }

  lemma MergeWhole(a: Vec, b: Vec, submitted: seq<seq<Block>>)
    requires Whole(a, submitted) && Whole(b, submitted)
    ensures Whole(Merge(a, b), submitted)
  {
    FlattenAppend(a.from, b.from, submitted);
  }

  lemma {:induction false} FlattenMore(from: seq<nat>, submitted: seq<seq<Block>>, more: seq<Block>)
    requires forall i :: 0 <= i < |from| ==> from[i] < |submitted|
    ensures Flatten(from, submitted + [more]) == Flatten(from, submitted)
  {
    if from != [] {
      FlattenMore(from[1..], submitted, more);
      assert (submitted + [more])[from[0]] == submitted[from[0]];
    }
  }

  lemma WholeMore(v: Vec, submitted: seq<seq<Block>>, more: seq<Block>)
    requires Whole(v, submitted)
    ensures Whole(v, submitted + [more])
  {
    FlattenMore(v.from, submitted, more);
  }

  lemma {:induction false} CarriedUpdate(tasks: seq<Task>, t: nat, k: Task)
    requires t < |tasks|
    ensures CarriedBy(tasks[t := k]) + Carried(tasks[t]) == CarriedBy(tasks) + Carried(k)
  {
    hide Carried;
    var n := |tasks| - 1;
    if t == n {
      assert tasks[t := k][..n] == tasks[..n];
    } else {
      assert tasks[t := k][..n] == tasks[..n][t := k];
      CarriedUpdate(tasks[..n], t, k);
      assert tasks[..n][t] == tasks[t];
      AddBoth(CarriedBy(tasks[..n][t := k]), CarriedBy(tasks[..n]), Carried(tasks[t]), Carried(k), Carried(tasks[n]));
    }
  }

  lemma AddBoth(a: multiset<nat>, b: multiset<nat>, c: multiset<nat>, d: multiset<nat>, e: multiset<nat>)
    requires a + c == b + d
    ensures (a + e) + c == (b + e) + d
  {
    assert (a + e) + c == (a + c) + e;
  }

  lemma Regroup(a: multiset<nat>, b: multiset<nat>, c: multiset<nat>)
    ensures a + (b + c) == (a + b) + c
  {
  }

  lemma Exchange(a: multiset<nat>, a': multiset<nat>, b: multiset<nat>, b': multiset<nat>, c: multiset<nat>, c': multiset<nat>)
    requires a' + c' == a + c
    requires b' + c == b + c'
    ensures a' + b' == a + b
  {
    forall x
      ensures (a' + b')[x] == (a + b)[x]
    {
      assert (a' + c')[x] == (a + c)[x] && (b' + c)[x] == (b + c')[x];
    }
  }

  // What one step of task t may do, said without looking at the other tasks.

  ghost predicate Frame(s: State, s': State, t: nat) {
    && t < |s.tasks| && |s'.tasks| == |s.tasks| && s'.tasks == s.tasks[t := s'.tasks[t]]
    && s'.submitted == s.submitted
    && (s'.run ==> s.run)
    && TaskOk(s'.tasks[t], s'.run)
  }

  ghost predicate LockMove(s: State, s': State, t: nat)
    requires t < |s.tasks| == |s'.tasks|
  {
    && (HoldsLock(s'.tasks[t]) <==> s'.holder == HeldBy(t))
    && (s'.holder == s.holder || (s.holder == Free && s'.holder == HeldBy(t)) || (s.holder == HeldBy(t) && s'.holder == Free))
  }

  ghost predicate LeadMove(s: State, s': State, t: nat)
    requires t < |s.tasks| == |s'.tasks|
  {
    var k, k' := s.tasks[t], s'.tasks[t];
    && (Leads(k') ==> s'.sending && (Leads(k) || !s.sending))
    && (s.sending && !s'.sending ==> Leads(k))
    && (s'.sending && !s.sending ==> Leads(k'))
    && (Leads(k) && !Leads(k') ==> !s'.sending || !s'.run)
  }

  ghost predicate QueueMove(s: State, s': State, t: nat)
    requires t < |s.tasks| == |s'.tasks|
  {
    var k, k' := s.tasks[t], s'.tasks[t];
    && (WillRescue(k) ==> WillRescue(k') || s'.sending || !s'.run)
    && (s'.queue.blocks != [] && s.queue.blocks == [] ==> WillRescue(k'))
    && (s.sending && !s'.sending ==> s'.queue.blocks == [] || WillRescue(k'))
  }

  ghost predicate DataMove(s: State, s': State, t: nat)
    requires t < |s.tasks| == |s'.tasks|
  {
    var k, k' := s.tasks[t], s'.tasks[t];
    && Whole(s'.queue, s.submitted) && Whole(s'.written, s.submitted)
    && Whole(k'.own, s.submitted) && Whole(k'.tmp, s.submitted)
    && multiset(s'.written.from) + (multiset(s'.queue.from) + Carried(k'))
    == multiset(s.written.from) + (multiset(s.queue.from) + Carried(k))
  }

  ghost predicate Move(s: State, s': State, t: nat) {
    Frame(s, s', t) && LockMove(s, s', t) && LeadMove(s, s', t) && QueueMove(s, s', t) && DataMove(s, s', t)
  }

  lemma MoveKeepsExclusive(s: State, s': State, t: nat)
    requires Exclusive(s) && Frame(s, s', t) && LockMove(s, s', t) && LeadMove(s, s', t)
    ensures Exclusive(s')
  {
    hide Leads, HoldsLock, TaskOk;
    assert forall u :: 0 <= u < |s.tasks| && u != t ==> s'.tasks[u] == s.tasks[u];
  }

  lemma MoveKeepsCovered(s: State, s': State, t: nat)
    requires Covered(s) && Frame(s, s', t) && LeadMove(s, s', t) && QueueMove(s, s', t)
    ensures Covered(s')
  {
    hide Leads, WillRescue, TaskOk;
    assert forall u :: 0 <= u < |s.tasks| && u != t ==> s'.tasks[u] == s.tasks[u];
    if s'.run && s'.sending && !Leads(s'.tasks[t]) {
      var u :| 0 <= u < |s.tasks| && Leads(s.tasks[u]);
      assert Leads(s'.tasks[u]);
    }
    if s'.run && s'.queue.blocks != [] && !s'.sending && !WillRescue(s'.tasks[t]) {
      var u :| 0 <= u < |s.tasks| && WillRescue(s.tasks[u]);
      assert WillRescue(s'.tasks[u]);
    }
  }

  lemma MoveKeepsTasksOk(s: State, s': State, t: nat)
    requires TasksOk(s) && Frame(s, s', t)
    ensures TasksOk(s')
  {
    forall u | 0 <= u < |s'.tasks|
      ensures TaskOk(s'.tasks[u], s'.run)
    {
      assert TaskOk(s.tasks[u], s.run);
      if u != t {
        assert s'.tasks[u] == s.tasks[u];
      }
    }
  }

  lemma MoveKeepsData(s: State, s': State, t: nat)
    requires AllWhole(s) && Conserved(s) && Frame(s, s', t) && DataMove(s, s', t)
    ensures AllWhole(s') && Conserved(s')
  {
    hide Whole, TaskOk, Carried, CarriedBy, Ids;
    assert forall u :: 0 <= u < |s.tasks| && u != t ==> s'.tasks[u] == s.tasks[u];
    CarriedUpdate(s.tasks, t, s'.tasks[t]);
    Regroup(multiset(s.written.from), multiset(s.queue.from), Carried(s.tasks[t]));
    Regroup(multiset(s'.written.from), multiset(s'.queue.from), Carried(s'.tasks[t]));
    Exchange(multiset(s.written.from) + multiset(s.queue.from), multiset(s'.written.from) + multiset(s'.queue.from),
             CarriedBy(s.tasks), CarriedBy(s'.tasks), Carried(s.tasks[t]), Carried(s'.tasks[t]));
  }

  lemma MoveKeeps(s: State, s': State, t: nat)
    requires Inv(s) && Move(s, s', t)
    ensures Inv(s')
  {
    MoveKeepsExclusive(s, s', t);
    MoveKeepsCovered(s, s', t);
    MoveKeepsTasksOk(s, s', t);
    MoveKeepsData(s, s', t);
  }

  /** What the control part of a step needs to know about its task. */
  ghost predicate Ready(s: State, t: nat) {
    && CanHappen(s, Step(t))
    && TaskOk(s.tasks[t], s.run)
    && (HoldsLock(s.tasks[t]) <==> s.holder == HeldBy(t))
    && (Leads(s.tasks[t]) ==> s.sending)
  }

  lemma StepIsFrame(s: State, t: nat)
    requires Ready(s, t)
    ensures Frame(s, TaskStep(s, t), t)
  {
    hide HoldsLock, Leads, TaskAfter, TaskOk;
    StepIsTaskOk(s, s.tasks[t]);
  }

  lemma StepIsTaskOk(s: State, k: Task)
    requires TaskOk(k, s.run) && k.pc != Done && k.pc != Writing
    ensures TaskOk(TaskAfter(s, k), s.run && k.pc != Stopping)
  {
  }

  lemma StepIsLockMove(s: State, t: nat)
    requires Ready(s, t)
    ensures LockMove(s, TaskStep(s, t), t)
  {
    hide TaskOk, Leads;
  }

  lemma StepIsLeadMove(s: State, t: nat)
    requires Ready(s, t)
    ensures LeadMove(s, TaskStep(s, t), t)
  {
    hide HoldsLock;
  }

  lemma StepIsQueueMove(s: State, t: nat)
    requires Ready(s, t)
    ensures QueueMove(s, TaskStep(s, t), t)
  {
    hide HoldsLock, Leads;
  }

  lemma StepIsDataMove(s: State, t: nat)
    requires CanHappen(s, Step(t))
    requires TaskOk(s.tasks[t], s.run)
    requires Whole(s.queue, s.submitted) && Whole(s.written, s.submitted)
    requires Whole(s.tasks[t].own, s.submitted) && Whole(s.tasks[t].tmp, s.submitted)
    ensures DataMove(s, TaskStep(s, t), t)
  {
    BlankIsEmpty(s.queue, s.submitted);
    BlankIsEmpty(s.tasks[t].tmp, s.submitted);
    hide Whole, Flatten, Carried, TaskStep, TaskOk;
    StepIsWhole(s, t);
    StepCarries(s, t);
  }

  lemma StepIsWhole(s: State, t: nat)
    requires CanHappen(s, Step(t))
    requires Whole(s.queue, s.submitted)
    requires Whole(s.tasks[t].own, s.submitted) && Whole(s.tasks[t].tmp, s.submitted)
    ensures var s' := TaskStep(s, t);
            && |s'.tasks| == |s.tasks| && s'.written == s.written && Whole(s'.queue, s.submitted)
            && Whole(s'.tasks[t].own, s.submitted) && Whole(s'.tasks[t].tmp, s.submitted)
  {
    hide Whole, TaskAfter, SharedAfter;
    TaskIsWhole(s, t, s.tasks[t]);
  }

  lemma TaskIsWhole(s: State, t: nat, k: Task)
    requires k.pc != Done && k.pc != Writing
    requires Whole(s.queue, s.submitted) && Whole(k.own, s.submitted) && Whole(k.tmp, s.submitted)
    ensures var s', k' := SharedAfter(s, t, k), TaskAfter(s, k);
            && s'.written == s.written && Whole(s'.queue, s.submitted)
            && Whole(k'.own, s.submitted) && Whole(k'.tmp, s.submitted)
  {
    hide Whole;
    EmptyWhole(s.submitted);
    MergeWhole(s.queue, k.own, s.submitted);
    MergeWhole(k.tmp, k.own, s.submitted);
  }

  lemma StepCarries(s: State, t: nat)
    requires CanHappen(s, Step(t))
    requires s.queue.blocks == [] ==> s.queue == EMPTY
    requires BeforeTaking(s.tasks[t].pc) ==> s.tasks[t].tmp == EMPTY
    ensures var s' := TaskStep(s, t);
            |s'.tasks| == |s.tasks| && multiset(s'.queue.from) + Carried(s'.tasks[t]) == multiset(s.queue.from) + Carried(s.tasks[t])
  {
    hide Carried, TaskAfter, SharedAfter;
    TaskCarries(s, t, s.tasks[t]);
  }

  lemma TaskCarries(s: State, t: nat, k: Task)
    requires k.pc != Done && k.pc != Writing
    requires s.queue.blocks == [] ==> s.queue == EMPTY
    requires BeforeTaking(k.pc) ==> k.tmp == EMPTY
    ensures multiset(SharedAfter(s, t, k).queue.from) + Carried(TaskAfter(s, k)) == multiset(s.queue.from) + Carried(k)
  {
    if k.pc == Merging {
      MergeCarries(s.queue, k.own);
    } else if k.pc == Collect {
      MergeCarries(k.tmp, k.own);
    }
  }

  lemma BlankIsEmpty(v: Vec, submitted: seq<seq<Block>>)
    requires Whole(v, submitted)
    ensures v.blocks == [] ==> v == EMPTY
  {
  }

  lemma EmptyWhole(submitted: seq<seq<Block>>)
    ensures Whole(EMPTY, submitted)
  {
  }

  lemma MergeCarries(a: Vec, b: Vec)
    ensures multiset(Merge(a, b).from) == multiset(a.from) + multiset(b.from)
  {
  }

  lemma CompleteIsMove(s: State, t: nat, ok: bool)
    requires Inv(s) && CanHappen(s, Complete(t, ok))
    ensures Move(s, Apply(s, Complete(t, ok)), t)
  {
    InvAt(s, t);
    hide Inv, Whole, Flatten, DataMove, Frame, LockMove, LeadMove, QueueMove;
    CompleteIsDataMove(s, t, ok);
    CompleteIsControlMove(s, t, ok);
  }

  lemma InvAt(s: State, t: nat)
    requires Inv(s) && t < |s.tasks|
    ensures TaskOk(s.tasks[t], s.run)
    ensures HoldsLock(s.tasks[t]) <==> s.holder == HeldBy(t)
    ensures Leads(s.tasks[t]) ==> s.sending
    ensures Whole(s.queue, s.submitted) && Whole(s.written, s.submitted)
    ensures Whole(s.tasks[t].own, s.submitted) && Whole(s.tasks[t].tmp, s.submitted)
  {
    hide TaskOk, Whole, Leads, HoldsLock;
  }

  lemma CompleteIsControlMove(s: State, t: nat, ok: bool)
    requires CanHappen(s, Complete(t, ok)) && TaskOk(s.tasks[t], s.run)
    requires HoldsLock(s.tasks[t]) <==> s.holder == HeldBy(t)
    requires Leads(s.tasks[t]) ==> s.sending
    ensures var s' := Apply(s, Complete(t, ok));
            Frame(s, s', t) && LockMove(s, s', t) && LeadMove(s, s', t) && QueueMove(s, s', t)
  {
  }

  lemma CompleteIsDataMove(s: State, t: nat, ok: bool)
    requires CanHappen(s, Complete(t, ok))
    requires Whole(s.queue, s.submitted) && Whole(s.written, s.submitted)
    requires Whole(s.tasks[t].own, s.submitted) && Whole(s.tasks[t].tmp, s.submitted)
    ensures DataMove(s, Apply(s, Complete(t, ok)), t)
  {
    var k := s.tasks[t];
    EmptyWhole(s.submitted);
    MergeWhole(s.written, k.tmp, s.submitted);
    MergeCarries(s.written, k.tmp);
    hide Whole, Flatten;
  }

  lemma SubmitKeepsControl(s: State, blocks: seq<Block>)
    requires Exclusive(s) && Covered(s) && TasksOk(s) && blocks != []
    ensures var s' := Apply(s, Submit(blocks)); Exclusive(s') && Covered(s') && TasksOk(s')
  {
    var s' := Apply(s, Submit(blocks));
    var k := s'.tasks[|s.tasks|];
    assert !Leads(k) && !HoldsLock(k) && TaskOk(k, s.run);
    hide Leads, HoldsLock, WillRescue, TaskOk;
    assert forall t :: 0 <= t < |s.tasks| ==> s'.tasks[t] == s.tasks[t];
  }

  lemma SubmitKeepsData(s: State, blocks: seq<Block>)
    requires AllWhole(s) && Conserved(s) && blocks != []
    ensures var s' := Apply(s, Submit(blocks)); AllWhole(s') && Conserved(s')
  {
    var s' := Apply(s, Submit(blocks));
    var id := |s.tasks|;
    var k := s'.tasks[id];
    SingleWhole(s.submitted, blocks);
    EmptyWhole(s'.submitted);
    assert Carried(k) == multiset{id};
    assert s'.tasks[..id] == s.tasks;
    hide Whole, Carried, Flatten;
    forall v | Whole(v, s.submitted)
      ensures Whole(v, s'.submitted)
    {
      WholeMore(v, s.submitted, blocks);
    }
  }

  lemma SingleWhole(submitted: seq<seq<Block>>, blocks: seq<Block>)
    requires blocks != []
    ensures Whole(Vec(blocks, [|submitted|]), submitted + [blocks])
  {
    var id, more := |submitted|, submitted + [blocks];
    assert [id][1..] == [];
    assert Flatten([id], more) == more[id] + Flatten([], more);
  }

  lemma ApplyKeeps(s: State, e: Event)
    requires Inv(s) && CanHappen(s, e) && NonEmpty(e)
    ensures Inv(Apply(s, e))
  {
    match e
    case Submit(blocks) =>
      SubmitKeepsControl(s, blocks);
      SubmitKeepsData(s, blocks);
    case Step(t) =>
      StepIsFrame(s, t);
      StepIsLockMove(s, t);
      StepIsLeadMove(s, t);
      StepIsQueueMove(s, t);
      StepIsDataMove(s, t);
      MoveKeeps(s, TaskStep(s, t), t);
    case Complete(t, ok) =>
      CompleteIsMove(s, t, ok);
      MoveKeeps(s, Apply(s, e), t);
    case StopSession =>
      StopKeeps(s);
  }

  lemma StopKeeps(s: State)
    requires Inv(s)
    ensures Inv(Apply(s, StopSession))
  {
    forall u | 0 <= u < |s.tasks|
      ensures TaskOk(s.tasks[u], false)
    {
      assert TaskOk(s.tasks[u], s.run);
    }
  }

  /** Invoke submits at least the block that InitHead allocates. */
  predicate NonEmpty(e: Event) {
    e.Submit? ==> e.blocks != []
  }

  ghost predicate Run(es: seq<Event>) {
    ValidRun(INITIAL, es) && forall i :: 0 <= i < |es| ==> NonEmpty(es[i])
  }

  lemma {:induction false} RunKeeps(s: State, es: seq<Event>)
    requires Inv(s) && ValidRun(s, es) && forall i :: 0 <= i < |es| ==> NonEmpty(es[i])
    ensures Inv(After(s, es))
    decreases |es|
  {
    hide Inv, Apply, CanHappen, NonEmpty;
    if es != [] {
      ApplyKeeps(s, es[0]);
      RunKeeps(Apply(s, es[0]), es[1..]);
    }
  }

  lemma InitialInv()
    ensures Inv(INITIAL)
  {
  }

  // ---------- the guarantees, for every run ----------

  /** The number of times a submission occurs among the first n. */
  lemma {:induction false} IdsAt(n: nat, id: nat)
    ensures Ids(n)[id] == if id < n then 1 else 0
  {
    if n != 0 {
      IdsAt(n - 1, id);
    }
  }

  /** Safety: one writer at a time; what is on the wire is whole submissions, none of them twice. */
  lemma NeverTwoWriters(es: seq<Event>, t: nat, u: nat, id: nat)
    requires Run(es)
    ensures var s := After(INITIAL, es);
            && (t < |s.tasks| && u < |s.tasks| && s.tasks[t].pc == Writing && s.tasks[u].pc == Writing ==> t == u)
            && Whole(s.written, s.submitted)
            && multiset(s.written.from)[id] <= 1
  {
    var s := After(INITIAL, es);
    InitialInv();
    RunKeeps(INITIAL, es);
    if t < |s.tasks| && u < |s.tasks| && s.tasks[t].pc == Writing && s.tasks[u].pc == Writing {
      assert Leads(s.tasks[t]) && Leads(s.tasks[u]);
    }
    IdsAt(|s.tasks|, id);
    assert multiset(s.written.from)[id] <= Ids(|s.tasks|)[id];
  }

  ghost predicate Quiescent(s: State) {
    forall t :: 0 <= t < |s.tasks| ==> s.tasks[t].pc == Done
  }

  /** Delivery: when no task is in flight on a running session, nothing is left behind. */
  lemma EverythingDelivered(es: seq<Event>, id: nat)
    requires Run(es) && After(INITIAL, es).run && Quiescent(After(INITIAL, es))
    ensures var s := After(INITIAL, es);
            && s.queue.blocks == [] && !s.sending && s.holder == Free
            && Whole(s.written, s.submitted)
            && multiset(s.written.from)[id] == if id < |s.submitted| then 1 else 0
  {
    hide Inv, Quiescent, Whole;
    InitialInv();
    RunKeeps(INITIAL, es);
    QuiescentFlags(After(INITIAL, es));
    QuiescentData(After(INITIAL, es), id);
  }

  lemma QuiescentFlags(s: State)
    requires Inv(s) && s.run && Quiescent(s)
    ensures s.queue.blocks == [] && !s.sending && s.holder == Free
  {
    hide TasksOk, AllWhole, Conserved;
    assert s.holder.HeldBy? ==> HoldsLock(s.tasks[s.holder.task]);
    assert forall t :: 0 <= t < |s.tasks| ==> !Leads(s.tasks[t]) && !WillRescue(s.tasks[t]);
  }

  lemma QuiescentData(s: State, id: nat)
    requires Inv(s) && s.run && Quiescent(s)
    ensures Whole(s.written, s.submitted)
    ensures multiset(s.written.from)[id] == if id < |s.submitted| then 1 else 0
  {
    QuiescentFlags(s);
    hide Exclusive, Covered, Flatten;
    QuiescentCarriesNothing(s, s.tasks);
    BlankIsEmpty(s.queue, s.submitted);
    IdsAt(|s.tasks|, id);
  }

  lemma {:induction false} QuiescentCarriesNothing(s: State, tasks: seq<Task>)
    requires forall t :: 0 <= t < |tasks| ==>
      tasks[t].pc == Done && TaskOk(tasks[t], true) && Whole(tasks[t].own, s.submitted) && Whole(tasks[t].tmp, s.submitted)
    ensures CarriedBy(tasks) == multiset{}
  {
    if tasks != [] {
      hide Flatten;
      QuiescentCarriesNothing(s, tasks[..|tasks| - 1]);
      var k := tasks[|tasks| - 1];
      BlankIsEmpty(k.own, s.submitted);
      BlankIsEmpty(k.tmp, s.submitted);
      assert Carried(k) == multiset{};
    }
  }

  /** No deadlock: as long as a task is in flight some task can move. */
  lemma SomeoneCanMove(es: seq<Event>, t: nat) returns (e: Event)
    requires Run(es) && t < |After(INITIAL, es).tasks| && After(INITIAL, es).tasks[t].pc != Done
    ensures (e.Step? || e.Complete?) && CanHappen(After(INITIAL, es), e)
  {
    var s := After(INITIAL, es);
    InitialInv();
    RunKeeps(INITIAL, es);
    var u := if s.holder.HeldBy? then s.holder.task else t;
    assert s.holder.HeldBy? ==> HoldsLock(s.tasks[u]);
    e := if s.tasks[u].pc == Writing then Complete(u, true) else Step(u);
  }

  function Rank(pc: Pc): nat {
    match pc
    case Start => 13 case WaitMerge => 12 case Merging => 11 case MergeUnlock => 10 case Reclaim => 9
    case Check => 8 case WaitTake => 7 case Taking => 6 case TakeUnlock => 5 case Collect => 4
    case Writing => 3 case Failing => 2 case Stopping => 1 case Done => 0
  }

  ghost function Ranks(tasks: seq<Task>): nat {
    if tasks == [] then 0 else Ranks(tasks[..|tasks| - 1]) + Rank(tasks[|tasks| - 1].pc)
  }

  lemma {:induction false} RanksUpdate(tasks: seq<Task>, t: nat, k: Task)
    requires t < |tasks|
    ensures Ranks(tasks[t := k]) + Rank(tasks[t].pc) == Ranks(tasks) + Rank(k.pc)
  {
    hide Rank;
    var n := |tasks| - 1;
    if t == n {
      assert tasks[t := k][..n] == tasks[..n];
    } else {
      assert tasks[t := k][..n] == tasks[..n][t := k];
      RanksUpdate(tasks[..n], t, k);
    }
  }

  /** A bound on the steps that are still to come if nothing more is submitted. */
  ghost function Remaining(s: State): int {
    6 * (|s.tasks| - |s.written.from|) + Ranks(s.tasks)
  }

  lemma {:induction false} IdsSize(n: nat)
    ensures |Ids(n)| == n
  {
    if n != 0 {
      IdsSize(n - 1);
    }
  }

  lemma StepCounts(s: State, e: Event)
    requires Inv(s) && CanHappen(s, e) && (e.Step? || e.Complete?)
    ensures Remaining(Apply(s, e)) < Remaining(s)
  {
    hide Inv, Rank, Apply;
    MoveCounts(s, e);
    RanksUpdate(s.tasks, e.task, Apply(s, e).tasks[e.task]);
    if e.Complete? {
      WrittenGrows(s, e.task);
    }
  }

  lemma MoveCounts(s: State, e: Event)
    requires CanHappen(s, e) && (e.Step? || e.Complete?)
    ensures var t, s' := e.task, Apply(s, e);
            && |s'.tasks| == |s.tasks| && s'.tasks == s.tasks[t := s'.tasks[t]]
            && s'.written == (if e.Complete? && e.ok then Merge(s.written, s.tasks[t].tmp) else s.written)
            && Rank(s'.tasks[t].pc) <= Rank(s.tasks[t].pc) - 1 + if e.Complete? && e.ok then 6 else 0
  {
    if e.Step? {
      StepRank(s, e.task);
    }
  }

  lemma StepRank(s: State, t: nat)
    requires CanHappen(s, Step(t))
    ensures TaskStep(s, t).written == s.written
    ensures Rank(TaskStep(s, t).tasks[t].pc) < Rank(s.tasks[t].pc)
  {
  }

  lemma WrittenGrows(s: State, t: nat)
    requires Inv(s) && t < |s.tasks| && s.tasks[t].pc == Writing
    ensures |Merge(s.written, s.tasks[t].tmp).from| > |s.written.from|
  {
    InvAt(s, t);
  }

  function TaskEvents(es: seq<Event>): nat {
    if es == [] then 0
    else (if es[0].Step? || es[0].Complete? then 1 else 0) + TaskEvents(es[1..])
  }

  /** No livelock: without new submissions the tasks take a bounded number of steps, whatever the schedule. */
  lemma {:induction false} RunsEnd(s: State, es: seq<Event>)
    requires Inv(s) && ValidRun(s, es) && forall i :: 0 <= i < |es| ==> !es[i].Submit?
    ensures TaskEvents(es) <= Remaining(s)
    decreases |es|
  {
    if es == [] {
      IdsSize(|s.tasks|);
      assert |multiset(s.written.from)| <= |Ids(|s.tasks|)|;
    } else {
      var s' := Apply(s, es[0]);
      ApplyKeeps(s, es[0]);
      RunsEnd(s', es[1..]);
      if es[0].Step? || es[0].Complete? {
        StepCounts(s, es[0]);
      }
    }
  }
}
