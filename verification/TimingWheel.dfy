// A timer with one wheel and an overflow map: when a task that is scheduled for a tick fires,
// that it fires once, and exactly when it fires on the tick it was meant for.
module TimingWheel {
  import opened Arithmetic

  // A task and the tick it is meant for.
  datatype Task = Task(tick: nat, id: nat)

  // The tick at which a task scheduled at tick now for the given tick fires.
  function FireTick(now: nat, tick: nat, size: nat): (f: nat)
    requires size > 0 && now <= tick
  {
    var diff := tick - now;
    if diff < size then tick
    else
      NaturalProduct(now / size + diff / size, size);
      (now / size + diff / size) * size + tick % size
  }

  // ---------------------------------------------------------------- arithmetic

  lemma Parts(x: nat, n: nat)
    requires n > 0
    ensures x == (x / n) * n + x % n && x % n < n
  {}

  // A task fires on its own tick exactly when the remainders do not carry into the next round;
  // otherwise one round too early. It is never late.
  lemma FiresOnTime(now: nat, tick: nat, size: nat)
    requires size > 0 && now <= tick
    ensures var diff := tick - now;
            FireTick(now, tick, size) == tick <==> diff < size || now % size + diff % size < size
    ensures now <= FireTick(now, tick, size)
    ensures FireTick(now, tick, size) == tick || FireTick(now, tick, size) == tick - size
    ensures FireTick(now, tick, size) % size == tick % size
    ensures tick - now >= size ==> FireTick(now, tick, size) / size == now / size + (tick - now) / size > now / size
  {
    var diff := tick - now;
    if diff >= size {
      var t, r, d, s := now / size, now % size, diff / size, diff % size;
      Parts(now, size);
      Parts(diff, size);
      Distribute(size, t, d);
      assert tick == (t + d) * size + (r + s);
      AtLeastOne(diff, size);
      DivModUnique((t + d) * size + tick % size, size, t + d, tick % size);
      Ahead(t, d, size, r);
      if r + s < size {
        DivModUnique((t + d) * size + (r + s), size, t + d, r + s);
      } else {
        Distribute(size, t + d, 1);
        DivModUnique((t + d + 1) * size + (r + s - size), size, t + d + 1, r + s - size);
      }
    }
  }

  // On a wheel of ten slots, a task scheduled at tick 5 for tick 20 fires at tick 10.
  lemma FiresEarly()
    ensures FireTick(5, 20, 10) == 10
  {
    assert 15 / 10 == 1;
  }

  lemma AtLeastOne(n: nat, d: nat)
    requires 0 < d <= n
    ensures n / d >= 1
  {
    if n / d == 0 {
      Parts(n, d);
      assert false;
    }
  }

  lemma Ahead(t: nat, d: nat, size: nat, r: nat)
    requires d >= 1 && r < size
    ensures t * size + r <= (t + d) * size
  {
    Distribute(size, t, d);
    assert d * size >= size;
  }

  // Rounds and positions of the next tick.
  lemma NextTick(now: nat, size: nat)
    requires size > 0
    ensures now % size + 1 < size ==> (now + 1) / size == now / size && (now + 1) % size == now % size + 1
    ensures now % size + 1 == size ==> (now + 1) / size == now / size + 1 && (now + 1) % size == 0
  {
    var t, r := now / size, now % size;
    Parts(now, size);
    if r + 1 < size {
      DivModUnique(t * size + (r + 1), size, t, r + 1);
    } else {
      Distribute(size, t, 1);
      DivModUnique((t + 1) * size, size, t + 1, 0);
    }
  }

  // Two ticks less than a round apart in the same position are the same.
  lemma SamePosition(a: nat, b: nat, size: nat)
    requires size > 0 && a <= b < a + size && a % size == b % size
    ensures a == b
  {
    Parts(a, size);
    Parts(b, size);
    var x, y := a / size, b / size;
    Distribute(size, x, y - x);
    if y > x {
      MulMonotone(size, 1, y - x);
      assert false;
    }
    if y < x {
      MulMonotone(size, y - x, -1);
      assert false;
    }
  }

  // ---------------------------------------------------------------- the timer

  predicate NoDuplicates(ts: seq<Task>) {
    forall i, j :: 0 <= i < j < |ts| ==> ts[i].id != ts[j].id
  }

  predicate Holds(ts: seq<Task>, id: nat) {
    exists i :: 0 <= i < |ts| && ts[i].id == id
  }

  lemma HoldsPush(ts: seq<Task>, t: Task)
    ensures forall id :: Holds(ts + [t], id) <==> Holds(ts, id) || id == t.id
    ensures NoDuplicates(ts) && !Holds(ts, t.id) ==> NoDuplicates(ts + [t])
  {
    forall id
      ensures Holds(ts + [t], id) <==> Holds(ts, id) || id == t.id
    {
      if Holds(ts, id) {
        var i :| 0 <= i < |ts| && ts[i].id == id;
        assert (ts + [t])[i].id == id;
      }
      assert (ts + [t])[|ts|] == t;
    }
  }

  lemma EmptyList(id: nat)
    ensures NoDuplicates([]) && forall other :: !Holds([], other)
  {}

  lemma NotAmong(ts: seq<Task>, known: set<nat>, id: nat)
    requires (forall t :: t in ts ==> t.id in known) && id !in known
    ensures !Holds(ts, id)
  {}

  // ---------------------------------------------------------------- where the tasks are

  type Due = map<nat, nat>

  // A task in slot p fires when the wheel gets there next, lo being the tick that comes next.
  ghost predicate InSlot(size: nat, lo: nat, due: Due, t: Task, p: nat)
    requires size > 0
  {
    t.id in due && lo <= due[t.id] < lo + size && due[t.id] % size == p == t.tick % size
  }

  ghost predicate SlotsInv(size: nat, lo: nat, wheel: seq<seq<Task>>, due: Due)
    requires size > 0
  {
    |wheel| == size
    && forall p :: 0 <= p < size ==> NoDuplicates(wheel[p]) && forall t :: t in wheel[p] ==> InSlot(size, lo, due, t, p)
  }

  // A task in the overflow list k fires in round k.
  ghost predicate InRound(size: nat, due: Due, t: Task, k: nat)
    requires size > 0
  {
    t.id in due && due[t.id] / size == k && due[t.id] % size == t.tick % size
  }

  ghost predicate RoundsInv(size: nat, first: nat, overflow: map<nat, seq<Task>>, due: Due)
    requires size > 0
  {
    forall k :: k in overflow ==>
      k >= first && NoDuplicates(overflow[k]) && forall t :: t in overflow[k] ==> InRound(size, due, t, k)
  }

  ghost predicate Waits(overflow: map<nat, seq<Task>>, k: nat, id: nat) {
    k in overflow && Holds(overflow[k], id)
  }

  // A task that has yet to fire is in one place: its slot, or the list of its round.
  ghost predicate PlacesInv(size: nat, lo: nat, wheel: seq<seq<Task>>, overflow: map<nat, seq<Task>>, due: Due)
    requires size > 0 && |wheel| == size
  {
    forall id :: id in due && due[id] >= lo ==>
      (Holds(wheel[due[id] % size], id) <==> !Waits(overflow, due[id] / size, id))
  }

  ghost predicate AllInv(size: nat, lo: nat, first: nat, wheel: seq<seq<Task>>, overflow: map<nat, seq<Task>>, due: Due) {
    size > 0 && SlotsInv(size, lo, wheel, due) && RoundsInv(size, first, overflow, due)
    && PlacesInv(size, lo, wheel, overflow, due)
  }

  // A task that is not known is nowhere.
  lemma Unknown(size: nat, lo: nat, first: nat, wheel: seq<seq<Task>>, overflow: map<nat, seq<Task>>, due: Due, id: nat)
    requires AllInv(size, lo, first, wheel, overflow, due) && id !in due
    ensures forall p :: 0 <= p < size ==> !Holds(wheel[p], id)
    ensures forall k :: k in overflow ==> !Holds(overflow[k], id)
  {
    forall p | 0 <= p < size
      ensures !Holds(wheel[p], id)
    {
      NotAmong(wheel[p], due.Keys, id);
    }
    forall k | k in overflow
      ensures !Holds(overflow[k], id)
    {
      NotAmong(overflow[k], due.Keys, id);
    }
  }

  lemma AddToSlot(size: nat, lo: nat, first: nat, wheel: seq<seq<Task>>, overflow: map<nat, seq<Task>>, due: Due,
                  t: Task, p: nat, fires: nat)
    requires AllInv(size, lo, first, wheel, overflow, due) && t.id !in due
    requires p < size && lo <= fires < lo + size && fires % size == p == t.tick % size
    ensures AllInv(size, lo, first, wheel[p := wheel[p] + [t]], overflow, due[t.id := fires])
  {
    Unknown(size, lo, first, wheel, overflow, due, t.id);
    HoldsPush(wheel[p], t);
    hide Holds, NoDuplicates;
  }

  lemma AddToRound(size: nat, lo: nat, first: nat, wheel: seq<seq<Task>>, overflow: map<nat, seq<Task>>, due: Due,
                   t: Task, k: nat, fires: nat)
    requires AllInv(size, lo, first, wheel, overflow, due) && t.id !in due
    requires k >= first && fires / size == k && fires % size == t.tick % size
    ensures AllInv(size, lo, first, wheel, overflow[k := ListOf(overflow, k) + [t]], due[t.id := fires])
  {
    Unknown(size, lo, first, wheel, overflow, due, t.id);
    EmptyList(t.id);
    HoldsPush(ListOf(overflow, k), t);
    hide Holds, NoDuplicates;
  }

  function ListOf(overflow: map<nat, seq<Task>>, k: nat): seq<Task> {
    if k in overflow then overflow[k] else []
  }

  // The slot that comes next holds exactly the tasks that fire now.
  lemma TakeSlot(size: nat, now: nat, first: nat, wheel: seq<seq<Task>>, overflow: map<nat, seq<Task>>, due: Due)
    requires AllInv(size, now, first, wheel, overflow, due) && first == now / size + 1
    ensures AllInv(size, now + 1, first, wheel[now % size := []], overflow, due)
    ensures NoDuplicates(wheel[now % size])
    ensures forall id :: Holds(wheel[now % size], id) <==> id in due && due[id] == now
  {
    var p := now % size;
    forall id | Holds(wheel[p], id)
      ensures id in due && due[id] == now
    {
      SlotIsDue(size, now, wheel, due, id);
    }
    forall q, t | 0 <= q < size && q != p && t in wheel[q]
      ensures InSlot(size, now + 1, due, t, q)
    {
      assert InSlot(size, now, due, t, q);
    }
    EmptyList(0);
    hide NoDuplicates, Holds;
  }

  lemma SlotIsDue(size: nat, now: nat, wheel: seq<seq<Task>>, due: Due, id: nat)
    requires size > 0 && SlotsInv(size, now, wheel, due) && Holds(wheel[now % size], id)
    ensures id in due && due[id] == now
  {
    var p := now % size;
    var i :| 0 <= i < |wheel[p]| && wheel[p][i].id == id;
    assert InSlot(size, now, due, wheel[p][i], p);
    SamePosition(now, due[id], size);
  }

  // One task moves from the list of the round that begins to the front of its slot.
  lemma MoveOne(size: nat, lo: nat, wheel: seq<seq<Task>>, overflow: map<nat, seq<Task>>, due: Due)
    requires size > 0 && lo % size == 0
    requires AllInv(size, lo, lo / size, wheel, overflow, due)
    requires lo / size in overflow && overflow[lo / size] != []
    ensures var k := lo / size; var t := overflow[k][0]; var p := t.tick % size;
            AllInv(size, lo, k, wheel[p := [t] + wheel[p]], overflow[k := overflow[k][1..]], due)
  {
    var k := lo / size;
    var t := overflow[k][0];
    var p, list := t.tick % size, overflow[k];
    assert t in list && InRound(size, due, t, k);
    RoundStart(lo, due[t.id], size);
    HeadHeld(list);
    assert Waits(overflow, k, t.id);
    HoldsFront(wheel[p], t);
    hide Holds, NoDuplicates;
  }

  // The ticks of the round that starts at lo.
  lemma RoundStart(lo: nat, tick: nat, size: nat)
    requires size > 0 && lo % size == 0 && tick / size == lo / size
    ensures lo <= tick < lo + size
  {
    Parts(lo, size);
    Parts(tick, size);
  }

  lemma HeadHeld(ts: seq<Task>)
    requires ts != [] && NoDuplicates(ts)
    ensures Holds(ts, ts[0].id) && NoDuplicates(ts[1..])
    ensures forall id :: Holds(ts, id) <==> Holds(ts[1..], id) || id == ts[0].id
    ensures !Holds(ts[1..], ts[0].id)
  {
    forall id
      ensures Holds(ts, id) <==> Holds(ts[1..], id) || id == ts[0].id
    {
      if Holds(ts[1..], id) {
        var i :| 0 <= i < |ts[1..]| && ts[1..][i].id == id;
        assert ts[i + 1].id == id;
      }
      if Holds(ts, id) && id != ts[0].id {
        var i :| 0 <= i < |ts| && ts[i].id == id;
        assert ts[1..][i - 1].id == id;
      }
    }
  }

  lemma HoldsFront(ts: seq<Task>, t: Task)
    ensures forall id :: Holds([t] + ts, id) <==> Holds(ts, id) || id == t.id
    ensures NoDuplicates(ts) && !Holds(ts, t.id) ==> NoDuplicates([t] + ts)
  {
    forall id
      ensures Holds([t] + ts, id) <==> Holds(ts, id) || id == t.id
    {
      if Holds(ts, id) {
        var i :| 0 <= i < |ts| && ts[i].id == id;
        assert ([t] + ts)[i + 1].id == id;
      }
      assert ([t] + ts)[0] == t;
    }
  }

  // An empty list can be dropped.
  lemma DropEmpty(size: nat, lo: nat, k: nat, wheel: seq<seq<Task>>, overflow: map<nat, seq<Task>>, due: Due)
    requires AllInv(size, lo, k, wheel, overflow, due) && (k in overflow ==> overflow[k] == [])
    ensures AllInv(size, lo, k + 1, wheel, overflow - {k}, due)
  {
    EmptyList(0);
    hide Holds, NoDuplicates;
  }

  // ---------------------------------------------------------------- the timer

  class Timer {
    const size: nat
    var currentPos: nat
    var currentTickCount: nat
    var wheel: seq<seq<Task>>
    var mapPos: nat
    var overflow: map<nat, seq<Task>>

    // The tick at which each task ever kept fires or has fired.
    ghost var due: Due

    ghost predicate Valid()
      reads this
    {
      && size > 0 && currentPos == currentTickCount % size && mapPos == currentTickCount / size
      && AllInv(size, currentTickCount, currentTickCount / size + 1, wheel, overflow, due)
    }

    constructor (size: nat)
      requires size > 0
      ensures Valid() && this.size == size && currentTickCount == 0 && due == map[]
    {
      this.size := size;
      currentPos, currentTickCount, mapPos := 0, 0, 0;
      wheel := seq(size, i => []);
      overflow := map[];
      due := map[];
    }

    // Runs a task whose tick is past at once; otherwise keeps it, to fire at FireTick.
    method ExecuteAt(tick: nat, id: nat) returns (atOnce: bool)
      requires Valid() && id !in due
      modifies this
      ensures Valid() && currentTickCount == old(currentTickCount)
      ensures atOnce <==> tick < currentTickCount
      ensures due == if atOnce then old(due) else old(due)[id := FireTick(currentTickCount, tick, size)]
    {
      hide FireTick, AllInv;
      if tick < currentTickCount {
        return true;
      }
      var diff := tick - currentTickCount;
      FiresOnTime(currentTickCount, tick, size);
      ghost var fires := FireTick(currentTickCount, tick, size);
      ghost var first := currentTickCount / size + 1;
      SlotCount(size, currentTickCount, first, wheel, overflow, due);
      var t := Task(tick, id);
      if diff < size {
        var pos := (diff + currentTickCount) % size;
        AddToSlot(size, currentTickCount, first, wheel, overflow, due, t, pos, fires);
        wheel := wheel[pos := wheel[pos] + [t]];
      } else {
        var key := diff / size + currentTickCount / size;
        AddToRound(size, currentTickCount, first, wheel, overflow, due, t, key, fires);
        overflow := overflow[key := ListOf(overflow, key) + [t]];
      }
      due := due[id := fires];
      atOnce := false;
    }

    // One tick: the tasks that fire now come out, each of them once, and no others.
    method Tick() returns (fired: seq<Task>)
      requires Valid()
      modifies this
      ensures Valid() && currentTickCount == old(currentTickCount) + 1 && due == old(due)
      ensures NoDuplicates(fired)
      ensures forall id :: Holds(fired, id) <==> id in due && due[id] == old(currentTickCount)
    {
      hide AllInv;
      ghost var now := currentTickCount;
      SlotCount(size, now, now / size + 1, wheel, overflow, due);
      TakeSlot(size, now, now / size + 1, wheel, overflow, due);
      NextTick(now, size);
      fired := wheel[currentPos];
      wheel := wheel[currentPos := []];
      currentPos := currentPos + 1;
      if currentPos == size {
        currentPos := 0;
        Borrow(now + 1);
      }
      currentTickCount := currentTickCount + 1;
    }

    // The next round begins: its tasks move from the overflow map into their slots.
    method Borrow(ghost lo: nat)
      requires size > 0 && lo % size == 0 && mapPos + 1 == lo / size
      requires AllInv(size, lo, lo / size, wheel, overflow, due)
      modifies this`mapPos, this`wheel, this`overflow
      ensures mapPos == old(mapPos) + 1
      ensures AllInv(size, lo, lo / size + 1, wheel, overflow, due)
    {
      hide AllInv;
      mapPos := mapPos + 1;
      ghost var k: nat := lo / size;
      ghost var rest: map<nat, seq<Task>> := overflow;
      if mapPos in overflow {
        var taskList := overflow[mapPos];
        overflow := overflow - {mapPos};
        while taskList != []
          invariant AllInv(size, lo, k, wheel, rest, due) && k in rest && rest[k] == taskList
          invariant rest - {k} == overflow && mapPos == k
          decreases |taskList|
        {
          MoveOne(size, lo, wheel, rest, due);
          SlotCount(size, lo, k, wheel, rest, due);
          var t := taskList[0];
          taskList := taskList[1..];
          rest := rest[k := taskList];
          wheel := wheel[t.tick % size := [t] + wheel[t.tick % size]];
        }
      }
      DropEmpty(size, lo, k, wheel, rest, due);
      assert rest - {k} == overflow;
    }
  }

  lemma SlotCount(size: nat, lo: nat, first: nat, wheel: seq<seq<Task>>, overflow: map<nat, seq<Task>>, due: Due)
    requires AllInv(size, lo, first, wheel, overflow, due)
    ensures size > 0 && |wheel| == size
  {}
}
