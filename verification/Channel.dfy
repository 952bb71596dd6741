/**
 The worker channel (ytlib/thread/channel.hpp:45-74 over ytlib/thread/block_queue.hpp:43-69):
 producers enqueue under a mutex and notify one sleeper, workers empty the queue and sleep on the
 condition variable, Stop ends the channel. A critical section that nothing else can observe is
 one step; steps of different threads interleave in any order. Items are named by the order in
 which they were accepted.
 */
module Channel {

  /** Where a worker thread stands. */
  datatype Worker =
    | Ready              // about to lock the mutex: at the start, woken, or after handling an item
    | Holding            // has the mutex, at the head of the inner loop
    | Handling(item: nat) // runs the handler without the mutex
    | Asleep             // waits on the condition variable
    | Exited

  datatype Holder = Free | HeldBy(worker: nat)

  datatype State = State(
    running: bool,
    holder: Holder,
    queue: seq<nat>,
    maxCount: nat,
    workers: seq<Worker>,
    accepted: nat,       // items accepted so far
    taken: nat,          // items that have left the queue
    handled: seq<nat>,   // items whose handler has returned, in that order
    beforeStop: nat)     // items accepted before Stop

  function Initial(workers: nat, maxCount: nat): State {
    State(true, Free, [], maxCount, seq(workers, i => Ready), 0, 0, [], 0)
  }

  datatype Event =
    | Enqueue(sleeper: nat)   // which sleeper notify_one wakes, if there is one
    | Acquire(worker: nat)    // the mutex is granted
    | Proceed(worker: nat)    // take an item, leave, or go to sleep
    | Finish(worker: nat)     // the handler returns
    | Spurious(worker: nat)   // the condition variable wakes a worker unasked
    | Stop

  predicate At(s: State, w: nat, k: Worker) {
    w < |s.workers| && s.workers[w] == k
  }

  predicate CanHappen(s: State, e: Event) {
    match e
    case Enqueue(w) => s.holder == Free && (Asleep in s.workers ==> At(s, w, Asleep))
    case Acquire(w) => s.holder == Free && At(s, w, Ready)
    case Proceed(w) => At(s, w, Holding)
    case Finish(w) => w < |s.workers| && s.workers[w].Handling?
    case Spurious(w) => At(s, w, Asleep)
    case Stop => s.holder == Free
  }

  function Woken(ws: seq<Worker>): seq<Worker> {
    seq(|ws|, i requires 0 <= i < |ws| => if ws[i] == Asleep then Ready else ws[i])
  }

  function Apply(s: State, e: Event): State
    requires CanHappen(s, e)
  {
    match e
    case Enqueue(w) =>
      if |s.queue| >= s.maxCount then s
      else
        s.(queue := s.queue + [s.accepted], accepted := s.accepted + 1,
           workers := if Asleep in s.workers then s.workers[w := Ready] else s.workers)
    case Acquire(w) => s.(holder := HeldBy(w), workers := s.workers[w := Holding])
    case Proceed(w) =>
      if s.queue != [] then
        s.(holder := Free, queue := s.queue[1..], taken := s.taken + 1,
           workers := s.workers[w := Handling(s.queue[0])])
      else if !s.running then s.(holder := Free, workers := s.workers[w := Exited])
      else s.(holder := Free, workers := s.workers[w := Asleep])
    case Finish(w) =>
      s.(handled := s.handled + [s.workers[w].item], workers := s.workers[w := Ready])
    case Spurious(w) => s.(workers := s.workers[w := Ready])
    case Stop =>
      s.(running := false, workers := Woken(s.workers),
         beforeStop := if s.running then s.accepted else s.beforeStop)
  }

  ghost predicate ValidRun(s: State, es: seq<Event>)
    decreases |es|
  {
    es == [] || (CanHappen(s, es[0]) && ValidRun(Apply(s, es[0]), es[1..]))
  }

  ghost function After(s: State, es: seq<Event>): State
    requires ValidRun(s, es)
    decreases |es|
  {
    if es == [] then s else After(Apply(s, es[0]), es[1..])
  }

  // ---------------------------------------------------------------- the invariant

  predicate Awake(k: Worker) {
    k != Asleep && k != Exited
  }

  function Range(lo: nat, hi: nat): (r: seq<nat>)
    requires lo <= hi
  {
    seq(hi - lo, i => lo + i)
  }

  /** The mutex has one holder, and it is the worker that says so. */
  predicate LockInv(s: State) {
    && (s.holder == Free || At(s, s.holder.worker, Holding))
    && forall w :: 0 <= w < |s.workers| && s.workers[w] == Holding ==> s.holder == HeldBy(w)
  }

  /** The queue holds the accepted items that have not been taken, in order. */
  predicate QueueInv(s: State) {
    s.taken <= s.accepted && s.queue == Range(s.taken, s.accepted) && |s.queue| <= s.maxCount
  }

  /** While there is work somebody is awake; nobody sleeps after Stop and nobody leaves before it. */
  predicate WakeInv(s: State) {
    && (s.running && s.queue != [] ==> exists w :: 0 <= w < |s.workers| && Awake(s.workers[w]))
    && (!s.running ==> Asleep !in s.workers && s.beforeStop <= s.accepted)
    && (Exited in s.workers ==> !s.running && s.beforeStop <= s.taken)
  }

  /** How often the item is being handled right now. */
  function InHand(ws: seq<Worker>, item: nat): nat {
    if ws == [] then 0 else (if ws[0] == Handling(item) then 1 else 0) + InHand(ws[1..], item)
  }

  function HandledTimes(s: State, item: nat): nat {
    multiset(s.handled)[item]
  }

  /** Every taken item is handled or in hand exactly once, and no other item is. */
  ghost predicate OnceInv(s: State) {
    forall item: nat :: HandledTimes(s, item) + InHand(s.workers, item) == if item < s.taken then 1 else 0
  }

  ghost predicate Inv(s: State) {
    |s.workers| > 0 && LockInv(s) && QueueInv(s) && WakeInv(s) && OnceInv(s)
  }

  lemma {:induction false} InHandUpdate(ws: seq<Worker>, w: nat, k: Worker, item: nat)
    requires w < |ws|
    ensures InHand(ws[w := k], item) + (if ws[w] == Handling(item) then 1 else 0)
         == InHand(ws, item) + (if k == Handling(item) then 1 else 0)
  {
    if w == 0 {
      assert ws[w := k][1..] == ws[1..];
    } else {
      assert ws[w := k][1..] == ws[1..][w - 1 := k];
      InHandUpdate(ws[1..], w - 1, k, item);
    }
  }

  lemma {:induction false} InHandWoken(ws: seq<Worker>, item: nat)
    ensures InHand(Woken(ws), item) == InHand(ws, item)
  {
    if ws != [] {
      assert Woken(ws)[1..] == Woken(ws[1..]);
      InHandWoken(ws[1..], item);
    }
  }

  lemma {:induction false} InHandNone(n: nat, item: nat)
    ensures InHand(seq(n, i => Ready), item) == 0
  {
    if n > 0 {
      var ws: seq<Worker> := seq(n, i => Ready);
      var rest: seq<Worker> := seq(n - 1, i => Ready);
      assert ws[1..] == rest;
      InHandNone(n - 1, item);
    }
  }

  lemma InitialInv(workers: nat, maxCount: nat)
    requires workers > 0
    ensures Inv(Initial(workers, maxCount))
  {
    var s := Initial(workers, maxCount);
    forall item: nat
      ensures HandledTimes(s, item) + InHand(s.workers, item) == 0
    {
      InHandNone(workers, item);
    }
  }

  // ---------------------------------------------------------------- every step keeps it

  lemma LockKept(s: State, e: Event)
    requires LockInv(s) && CanHappen(s, e)
    ensures LockInv(Apply(s, e))
  {}

  lemma QueueKept(s: State, e: Event)
    requires QueueInv(s) && CanHappen(s, e)
    ensures QueueInv(Apply(s, e))
  {
    var r := Apply(s, e);
    if e.Enqueue? && |s.queue| < s.maxCount {
      assert Range(s.taken, s.accepted + 1) == Range(s.taken, s.accepted) + [s.accepted];
    }
    if e.Proceed? && s.queue != [] {
      assert Range(s.taken, s.accepted)[1..] == Range(s.taken + 1, s.accepted);
    }
  }

  lemma WakeKept(s: State, e: Event)
    requires |s.workers| > 0 && LockInv(s) && QueueInv(s) && WakeInv(s) && CanHappen(s, e)
    ensures WakeInv(Apply(s, e))
  {
    var r := Apply(s, e);
    match e
    case Enqueue(w) =>
      if |s.queue| < s.maxCount {
        EnqueueWakes(s, w);
      }
    case Acquire(w) =>
      assert Awake(r.workers[w]);
    case Proceed(w) =>
      if s.queue != [] {
        assert Awake(r.workers[w]);
      }
    case Finish(w) =>
      assert Awake(r.workers[w]);
    case Spurious(w) =>
      assert Awake(r.workers[w]);
    case Stop =>
  }

  /** After an enqueue somebody is awake: the sleeper that was notified, or everybody was. */
  lemma EnqueueWakes(s: State, w: nat)
    requires |s.workers| > 0 && WakeInv(s) && CanHappen(s, Enqueue(w)) && |s.queue| < s.maxCount
    ensures WakeInv(Apply(s, Enqueue(w)))
  {
    var r := Apply(s, Enqueue(w));
    if s.running {
      if Asleep in s.workers {
        assert Awake(r.workers[w]);
      } else {
        assert s.workers[0] in s.workers;
        assert Awake(r.workers[0]);
      }
    }
  }

  lemma OnceKept(s: State, e: Event)
    requires QueueInv(s) && OnceInv(s) && CanHappen(s, e)
    ensures OnceInv(Apply(s, e))
  {
    var r := Apply(s, e);
    forall item: nat
      ensures HandledTimes(r, item) + InHand(r.workers, item) == if item < r.taken then 1 else 0
    {
      assert HandledTimes(s, item) + InHand(s.workers, item) == if item < s.taken then 1 else 0;
      match e
      case Enqueue(w) =>
        if Asleep in s.workers {
          InHandUpdate(s.workers, w, Ready, item);
        }
      case Acquire(w) => InHandUpdate(s.workers, w, Holding, item);
      case Proceed(w) => InHandUpdate(s.workers, w, r.workers[w], item);
      case Finish(w) => InHandUpdate(s.workers, w, Ready, item);
      case Spurious(w) => InHandUpdate(s.workers, w, Ready, item);
      case Stop => InHandWoken(s.workers, item);
    }
  }

  lemma ApplyKeeps(s: State, e: Event)
    requires Inv(s) && CanHappen(s, e)
    ensures Inv(Apply(s, e))
  {
    hide LockInv, QueueInv, WakeInv, OnceInv;
    LockKept(s, e);
    QueueKept(s, e);
    WakeKept(s, e);
    OnceKept(s, e);
  }

  lemma {:induction false} RunKeeps(s: State, es: seq<Event>)
    requires Inv(s) && ValidRun(s, es)
    ensures Inv(After(s, es))
    decreases |es|
  {
    if es != [] {
      ApplyKeeps(s, es[0]);
      RunKeeps(Apply(s, es[0]), es[1..]);
    }
  }

  // ---------------------------------------------------------------- what holds over every run

  /** A run of a channel with at least one worker. */
  ghost predicate Run(workers: nat, maxCount: nat, es: seq<Event>) {
    workers > 0 && ValidRun(Initial(workers, maxCount), es)
  }

  ghost function End(workers: nat, maxCount: nat, es: seq<Event>): State
    requires Run(workers, maxCount, es)
  {
    After(Initial(workers, maxCount), es)
  }

  lemma EndInv(workers: nat, maxCount: nat, es: seq<Event>)
    requires Run(workers, maxCount, es)
    ensures Inv(End(workers, maxCount, es))
  {
    InitialInv(workers, maxCount);
    RunKeeps(Initial(workers, maxCount), es);
  }

  /** No item is handled twice, and none that has not been accepted. */
  lemma HandledAtMostOnce(workers: nat, maxCount: nat, es: seq<Event>, item: nat)
    requires Run(workers, maxCount, es)
    ensures var s := End(workers, maxCount, es);
            HandledTimes(s, item) <= 1 && (item in s.handled ==> item < s.accepted)
  {
    EndInv(workers, maxCount, es);
    var s := End(workers, maxCount, es);
    assert HandledTimes(s, item) + InHand(s.workers, item) == if item < s.taken then 1 else 0;
    assert item in s.handled ==> item in multiset(s.handled);
  }

  /** Items leave the queue in the order in which they were accepted. */
  lemma FirstInFirstOut(workers: nat, maxCount: nat, es: seq<Event>, w: nat)
    requires Run(workers, maxCount, es)
    requires CanHappen(End(workers, maxCount, es), Proceed(w)) && End(workers, maxCount, es).queue != []
    ensures var s := End(workers, maxCount, es); Apply(s, Proceed(w)).workers[w] == Handling(s.taken)
  {
    EndInv(workers, maxCount, es);
  }

  /** Work in the queue of a running channel is never left to sleepers. */
  lemma NeverStranded(workers: nat, maxCount: nat, es: seq<Event>)
    requires Run(workers, maxCount, es)
    ensures var s := End(workers, maxCount, es);
            (s.running && s.queue != [] ==> exists w :: 0 <= w < |s.workers| && Awake(s.workers[w]))
            && (!s.running ==> Asleep !in s.workers)
  {
    EndInv(workers, maxCount, es);
  }

  ghost predicate AllExited(s: State) {
    forall w :: 0 <= w < |s.workers| ==> s.workers[w] == Exited
  }

  lemma {:induction false} ExitedHoldNothing(ws: seq<Worker>, item: nat)
    requires forall w :: 0 <= w < |ws| ==> ws[w] == Exited
    ensures InHand(ws, item) == 0
  {
    if ws != [] {
      ExitedHoldNothing(ws[1..], item);
    }
  }

  /** Once every worker has been joined, each item accepted before Stop has been handled, once. */
  lemma NothingLost(workers: nat, maxCount: nat, es: seq<Event>, item: nat)
    requires Run(workers, maxCount, es) && AllExited(End(workers, maxCount, es))
    ensures var s := End(workers, maxCount, es);
            !s.running && (item < s.beforeStop ==> HandledTimes(s, item) == 1)
  {
    EndInv(workers, maxCount, es);
    var s := End(workers, maxCount, es);
    assert s.workers[0] in s.workers;
    ExitedHoldNothing(s.workers, item);
    assert HandledTimes(s, item) + InHand(s.workers, item) == if item < s.taken then 1 else 0;
  }

  // ---------------------------------------------------------------- progress

  /** An event that a worker can take by itself. */
  predicate WorkerStep(e: Event) {
    e.Acquire? || e.Proceed? || e.Finish?
  }

  /** As long as there is work, or a stopped worker has not left, some worker can take a step. */
  lemma SomeoneCanMove(workers: nat, maxCount: nat, es: seq<Event>) returns (e: Event)
    requires Run(workers, maxCount, es)
    requires var s := End(workers, maxCount, es); (s.running && s.queue != []) || (!s.running && !AllExited(s))
    ensures WorkerStep(e) && CanHappen(End(workers, maxCount, es), e)
  {
    EndInv(workers, maxCount, es);
    var s := End(workers, maxCount, es);
    var w := SomeoneAwake(s);
    if s.workers[w].Handling? {
      e := Finish(w);
    } else if s.workers[w] == Holding {
      e := Proceed(w);
    } else if s.holder == Free {
      e := Acquire(w);
    } else {
      e := Proceed(s.holder.worker);
    }
  }

  lemma SomeoneAwake(s: State) returns (w: nat)
    requires WakeInv(s) && ((s.running && s.queue != []) || (!s.running && !AllExited(s)))
    ensures w < |s.workers| && Awake(s.workers[w])
  {
    if s.running {
      w :| w < |s.workers| && Awake(s.workers[w]);
    } else {
      w :| w < |s.workers| && s.workers[w] != Exited;
      assert s.workers[w] in s.workers;
    }
  }

  /** How many steps a worker has before it sleeps, leaves or takes another item. */
  function Rank(k: Worker): nat {
    match k
    case Handling(_) => 3
    case Ready => 2
    case Holding => 1
    case _ => 0
  }

  function Ranks(ws: seq<Worker>): nat {
    if ws == [] then 0 else Rank(ws[0]) + Ranks(ws[1..])
  }

  lemma {:induction false} RanksUpdate(ws: seq<Worker>, w: nat, k: Worker)
    requires w < |ws|
    ensures Ranks(ws[w := k]) + Rank(ws[w]) == Ranks(ws) + Rank(k)
  {
    if w == 0 {
      assert ws[w := k][1..] == ws[1..];
    } else {
      assert ws[w := k][1..] == ws[1..][w - 1 := k];
      RanksUpdate(ws[1..], w - 1, k);
    }
  }

  lemma {:induction false} RanksWoken(ws: seq<Worker>)
    ensures Ranks(Woken(ws)) <= Ranks(ws) + 2 * |ws|
  {
    if ws != [] {
      assert Woken(ws)[1..] == Woken(ws[1..]);
      RanksWoken(ws[1..]);
    }
  }

  /** A bound on the steps the workers can still take by themselves. */
  function Remaining(s: State): nat {
    4 * |s.queue| + Ranks(s.workers)
  }

  /** What an event costs: a worker's step uses up one, the others add a few. */
  function Added(s: State, e: Event): int {
    match e
    case Enqueue(_) => 6
    case Spurious(_) => 2
    case Stop => 2 * |s.workers|
    case _ => -1
  }

  lemma EventCounts(s: State, e: Event)
    requires LockInv(s) && CanHappen(s, e)
    ensures Remaining(Apply(s, e)) <= Remaining(s) + Added(s, e)
    ensures |Apply(s, e).workers| == |s.workers|
  {
    var r := Apply(s, e);
    match e
    case Enqueue(w) =>
      if Asleep in s.workers {
        RanksUpdate(s.workers, w, Ready);
      }
    case Acquire(w) => RanksUpdate(s.workers, w, Holding);
    case Proceed(w) => RanksUpdate(s.workers, w, r.workers[w]);
    case Finish(w) => RanksUpdate(s.workers, w, Ready);
    case Spurious(w) => RanksUpdate(s.workers, w, Ready);
    case Stop => RanksWoken(s.workers);
  }

  function WorkerSteps(es: seq<Event>): nat {
    if es == [] then 0 else (if WorkerStep(es[0]) then 1 else 0) + WorkerSteps(es[1..])
  }

  /** What the events from outside can add to the workers' steps. */
  function Outside(workers: nat, es: seq<Event>): nat {
    if es == [] then 0
    else
      (match es[0]
       case Enqueue(_) => 6
       case Spurious(_) => 2
       case Stop => 2 * workers
       case _ => 0) + Outside(workers, es[1..])
  }

  /** The workers take boundedly many steps between events from outside: with nothing more
      enqueued they come to rest, and with SomeoneCanMove a stopped channel ends with every
      worker gone. */
  lemma {:induction false} RunsEnd(s: State, es: seq<Event>)
    requires Inv(s) && ValidRun(s, es)
    ensures WorkerSteps(es) + Remaining(After(s, es)) <= Remaining(s) + Outside(|s.workers|, es)
    decreases |es|
  {
    if es != [] {
      var r := Apply(s, es[0]);
      ApplyKeeps(s, es[0]);
      EventCounts(s, es[0]);
      hide Remaining, Inv;
      RunsEnd(r, es[1..]);
    }
  }
}
