/**
 What a run of the channel does, read off its events: which of them accept an item, that the
 channel runs until the first Stop, and that everything accepted by then is handled.
 */
module ChannelHistory {
  import opened Channel

  lemma {:induction false} RunPrefix(s: State, es: seq<Event>, i: nat)
    requires ValidRun(s, es) && i <= |es|
    ensures ValidRun(s, es[..i]) && ValidRun(After(s, es[..i]), es[i..])
    ensures After(After(s, es[..i]), es[i..]) == After(s, es)
    decreases i
  {
    hide Apply, CanHappen;
    if i == 0 {
      assert es[..0] == [] && es[0..] == es;
    } else {
      RunPrefix(Apply(s, es[0]), es[1..], i - 1);
      assert es[..i][1..] == es[1..][..i - 1] && es[..i][0] == es[0] && es[1..][i - 1..] == es[i..];
    }
  }

  /** One event of a run: it can happen where the events before it lead, and it leads on. */
  lemma EventAt(workers: nat, maxCount: nat, es: seq<Event>, i: nat)
    requires Run(workers, maxCount, es) && i < |es|
    ensures Run(workers, maxCount, es[..i]) && Run(workers, maxCount, es[..i + 1])
    ensures CanHappen(End(workers, maxCount, es[..i]), es[i])
    ensures End(workers, maxCount, es[..i + 1]) == Apply(End(workers, maxCount, es[..i]), es[i])
  {
    hide Apply, CanHappen;
    var s := Initial(workers, maxCount);
    RunPrefix(s, es, i);
    RunPrefix(s, es, i + 1);
    RunPrefix(s, es[..i + 1], i);
    assert es[..i + 1][..i] == es[..i] && es[..i + 1][i..] == [es[i]] && es[i..][0] == es[i];
    assert [es[i]][1..] == [];
  }

  // ---------------------------------------------------------------- what is accepted

  lemma {:induction false} MaxCountStays(s: State, es: seq<Event>)
    requires ValidRun(s, es)
    ensures After(s, es).maxCount == s.maxCount
    decreases |es|
  {
    if es != [] {
      assert Apply(s, es[0]).maxCount == s.maxCount;
      MaxCountStays(Apply(s, es[0]), es[1..]);
    }
  }

  /** The event number i is an Enqueue that finds fewer than maxCount items in the queue. */
  ghost predicate FindsRoom(workers: nat, maxCount: nat, es: seq<Event>, i: nat)
    requires Run(workers, maxCount, es) && i < |es|
  {
    EventAt(workers, maxCount, es, i);
    es[i].Enqueue? && |End(workers, maxCount, es[..i]).queue| < maxCount
  }

  /** Such an event puts a new item behind all others in the queue; any other Enqueue changes nothing. */
  lemma EnqueueAppends(workers: nat, maxCount: nat, es: seq<Event>, i: nat)
    requires Run(workers, maxCount, es) && i < |es| && es[i].Enqueue?
    ensures Run(workers, maxCount, es[..i]) && Run(workers, maxCount, es[..i + 1])
    ensures var s, s' := End(workers, maxCount, es[..i]), End(workers, maxCount, es[..i + 1]);
            if |s.queue| < maxCount then
              && s'.queue == s.queue + [s.accepted] && s'.accepted == s.accepted + 1 && s.accepted !in s.queue
              && s'.handled == s.handled && s'.running == s.running
            else s' == s
  {
    EventAt(workers, maxCount, es, i);
    MaxCountStays(Initial(workers, maxCount), es[..i]);
    EndInv(workers, maxCount, es[..i]);
    var s := End(workers, maxCount, es[..i]);
    assert forall x :: x in Range(s.taken, s.accepted) ==> x < s.accepted;
  }

  /** How many of the first n events are of that kind. */
  ghost function RoomFound(workers: nat, maxCount: nat, es: seq<Event>, n: nat): nat
    requires Run(workers, maxCount, es) && n <= |es|
  {
    if n == 0 then 0
    else RoomFound(workers, maxCount, es, n - 1) + if FindsRoom(workers, maxCount, es, n - 1) then 1 else 0
  }

  /** Exactly these events accept an item. */
  lemma {:induction false} AcceptedIsRoomFound(workers: nat, maxCount: nat, es: seq<Event>, n: nat)
    requires Run(workers, maxCount, es) && n <= |es|
    ensures Run(workers, maxCount, es[..n])
    ensures End(workers, maxCount, es[..n]).accepted == RoomFound(workers, maxCount, es, n)
  {
    hide Run, End;
    PrefixIsRun(workers, maxCount, es, n);
    if n == 0 {
      StartsEmpty(workers, maxCount, es);
    } else {
      AcceptedIsRoomFound(workers, maxCount, es, n - 1);
      AcceptedStep(workers, maxCount, es, n - 1);
    }
  }

  lemma PrefixIsRun(workers: nat, maxCount: nat, es: seq<Event>, n: nat)
    requires Run(workers, maxCount, es) && n <= |es|
    ensures Run(workers, maxCount, es[..n])
  {
    RunPrefix(Initial(workers, maxCount), es, n);
  }

  lemma StartsEmpty(workers: nat, maxCount: nat, es: seq<Event>)
    requires Run(workers, maxCount, es[..0])
    ensures var s := End(workers, maxCount, es[..0]); s.accepted == 0 && s.queue == [] && s.handled == [] && s.running
  {}

  lemma AcceptedStep(workers: nat, maxCount: nat, es: seq<Event>, i: nat)
    requires Run(workers, maxCount, es) && i < |es|
    ensures Run(workers, maxCount, es[..i]) && Run(workers, maxCount, es[..i + 1])
    ensures End(workers, maxCount, es[..i + 1]).accepted
         == End(workers, maxCount, es[..i]).accepted + if FindsRoom(workers, maxCount, es, i) then 1 else 0
  {
    EventAt(workers, maxCount, es, i);
    MaxCountStays(Initial(workers, maxCount), es[..i]);
  }

  // ---------------------------------------------------------------- Stop

  /** The channel runs until the first Stop and never again. */
  lemma {:induction false} RunsUntilStop(workers: nat, maxCount: nat, es: seq<Event>)
    requires Run(workers, maxCount, es)
    ensures End(workers, maxCount, es).running <==> Stop !in es
    decreases |es|
  {
    if es != [] {
      var n := |es| - 1;
      EventAt(workers, maxCount, es, n);
      RunsUntilStop(workers, maxCount, es[..n]);
      assert es[..n + 1] == es == es[..n] + [es[n]];
    }
  }

  /** The counter of items accepted before Stop is what it says. */
  lemma {:induction false} BeforeStopIs(workers: nat, maxCount: nat, es: seq<Event>, i: nat)
    requires Run(workers, maxCount, es) && i < |es| && es[i] == Stop && Stop !in es[..i]
    ensures Run(workers, maxCount, es[..i])
    ensures End(workers, maxCount, es).beforeStop == End(workers, maxCount, es[..i]).accepted
    decreases |es|
  {
    var n := |es| - 1;
    EventAt(workers, maxCount, es, n);
    assert es[..n + 1] == es;
    if i == n {
      RunsUntilStop(workers, maxCount, es[..n]);
    } else {
      assert es[..n][..i] == es[..i] && es[..n][i] == es[i];
      BeforeStopIs(workers, maxCount, es[..n], i);
      RunsUntilStop(workers, maxCount, es[..n]);
    }
  }

  /** Once all workers have left, every item accepted before the first Stop has been handled, once. */
  lemma HandledBeforeStop(workers: nat, maxCount: nat, es: seq<Event>, i: nat, item: nat)
    requires Run(workers, maxCount, es) && AllExited(End(workers, maxCount, es))
    requires i < |es| && es[i] == Stop && Stop !in es[..i]
    requires item < RoomFound(workers, maxCount, es, i)
    ensures multiset(End(workers, maxCount, es).handled)[item] == 1
  {
    AcceptedIsRoomFound(workers, maxCount, es, i);
    BeforeStopIs(workers, maxCount, es, i);
    hide Run, End, RoomFound;
    NothingLost(workers, maxCount, es, item);
  }

  /** Workers leave only after a Stop. */
  lemma SomeoneLeft(workers: nat, maxCount: nat, es: seq<Event>)
    requires Run(workers, maxCount, es) && Exited in End(workers, maxCount, es).workers
    ensures Stop in es
  {
    EndInv(workers, maxCount, es);
    RunsUntilStop(workers, maxCount, es);
  }

  /** Whenever the mutex is free, something can be enqueued, and the channel can be stopped. */
  lemma OpenToCallers(workers: nat, maxCount: nat, es: seq<Event>) returns (sleeper: nat)
    requires Run(workers, maxCount, es) && End(workers, maxCount, es).holder == Free
    ensures CanHappen(End(workers, maxCount, es), Enqueue(sleeper)) && CanHappen(End(workers, maxCount, es), Stop)
  {
    var s := End(workers, maxCount, es);
    if Asleep in s.workers {
      sleeper :| sleeper < |s.workers| && s.workers[sleeper] == Asleep;
    } else {
      sleeper := 0;
    }
  }
}
