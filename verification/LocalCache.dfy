// A cache with a time to live and eviction of the least recently used entries. Its recency list
// and its load-time list are related to a plain map, a use counter per key and the clock.
module LocalCache {
  import opened Wrappers

  datatype Entry<V> = Entry(val: V, loadTime: int)

  // ---------------------------------------------------------------- ordered lists of keys

  // The rank goes up along the list, so no key is in it twice.
  ghost predicate Rising<K>(s: seq<K>, rank: map<K, int>) {
    s == [] || (s[0] in rank && (forall x :: x in s[1..] ==> x in rank && rank[s[0]] < rank[x]) && Rising(s[1..], rank))
  }

  // The rank never goes down along the list, and no key is in it twice.
  ghost predicate Level<K>(s: seq<K>, rank: map<K, int>) {
    s == [] || (s[0] in rank && s[0] !in s[1..]
                && (forall x :: x in s[1..] ==> x in rank && rank[s[0]] <= rank[x]) && Level(s[1..], rank))
  }

  function Remove<K(==)>(s: seq<K>, k: K): (r: seq<K>)
    ensures forall x :: x in r ==> x in s
  {
    if s == [] then [] else if s[0] == k then s[1..] else [s[0]] + Remove(s[1..], k)
  }

  lemma {:induction false} RemoveRising<K>(s: seq<K>, k: K, rank: map<K, int>)
    requires Rising(s, rank) && k in s
    ensures Rising(Remove(s, k), rank) && |Remove(s, k)| == |s| - 1
    ensures forall x :: x in Remove(s, k) <==> x in s && x != k
  {
    if s[0] != k {
      RemoveRising(s[1..], k, rank);
    }
  }

  lemma {:induction false} RemoveLevel<K>(s: seq<K>, k: K, rank: map<K, int>)
    requires Level(s, rank) && k in s
    ensures Level(Remove(s, k), rank) && |Remove(s, k)| == |s| - 1
    ensures forall x :: x in Remove(s, k) <==> x in s && x != k
  {
    if s[0] != k {
      RemoveLevel(s[1..], k, rank);
    }
  }

  lemma SingleRising<K>(k: K, rank: map<K, int>)
    requires k in rank
    ensures Rising([k], rank)
  {
    assert [k][1..] == [];
  }

  lemma SingleLevel<K>(k: K, rank: map<K, int>)
    requires k in rank
    ensures Level([k], rank)
  {
    assert [k][1..] == [];
  }

  lemma {:induction false} AppendRising<K>(s: seq<K>, k: K, rank: map<K, int>, r: int)
    requires Rising(s, rank) && k !in s && forall x :: x in s ==> rank[x] < r
    ensures Rising(s + [k], rank[k := r])
  {
    if s == [] {
      SingleRising(k, rank[k := r]);
      assert s + [k] == [k];
    } else {
      AppendRising(s[1..], k, rank, r);
      assert (s + [k])[1..] == s[1..] + [k];
    }
  }

  lemma {:induction false} AppendLevel<K>(s: seq<K>, k: K, rank: map<K, int>, r: int)
    requires Level(s, rank) && k !in s && forall x :: x in s ==> rank[x] <= r
    ensures Level(s + [k], rank[k := r])
  {
    if s == [] {
      SingleLevel(k, rank[k := r]);
      assert s + [k] == [k];
    } else {
      AppendLevel(s[1..], k, rank, r);
      assert (s + [k])[1..] == s[1..] + [k];
    }
  }

  lemma {:induction false} RisingIn<K>(s: seq<K>, rank: map<K, int>)
    requires Rising(s, rank)
    ensures forall x :: x in s ==> x in rank
  {
    if s != [] {
      RisingIn(s[1..], rank);
    }
  }

  // Ranks of keys outside the list do not matter.
  lemma {:induction false} LevelOther<K>(s: seq<K>, rank: map<K, int>, other: map<K, int>)
    requires Level(s, rank) && forall x :: x in s ==> x in other && x in rank && rank[x] == other[x]
    ensures Level(s, other)
  {
    if s != [] {
      LevelOther(s[1..], rank, other);
    }
  }

  ghost function LoadTimes<K, V>(m: map<K, Entry<V>>): map<K, int> {
    map k | k in m :: m[k].loadTime
  }

  // ---------------------------------------------------------------- the cache

  ghost function AliveOf<K, V>(m: map<K, Entry<V>>, line: int): map<K, Entry<V>> {
    map k | k in m && m[k].loadTime >= line :: m[k]
  }

  // The keys of the map, the recency list by last use, and the load-time list by load time.
  ghost predicate Consistent<K(!new), V>(dataMap: map<K, Entry<V>>, lru: seq<K>, ttl: seq<K>, used: map<K, int>) {
    && |lru| == |dataMap| && |ttl| == |dataMap|
    && (forall k :: k in lru <==> k in dataMap) && (forall k :: k in ttl <==> k in dataMap)
    && Rising(lru, used) && Level(ttl, LoadTimes(dataMap))
  }

  lemma DropKey<K(!new), V>(dataMap: map<K, Entry<V>>, lru: seq<K>, ttl: seq<K>, used: map<K, int>, k: K)
    requires Consistent(dataMap, lru, ttl, used) && k in dataMap
    ensures Consistent(dataMap - {k}, Remove(lru, k), Remove(ttl, k), used)
    ensures |dataMap - {k}| == |dataMap| - 1
  {
    RemoveRising(lru, k, used);
    RemoveLevel(ttl, k, LoadTimes(dataMap));
    LevelOther(Remove(ttl, k), LoadTimes(dataMap), LoadTimes(dataMap - {k}));
    assert (dataMap - {k}).Keys == dataMap.Keys - {k};
    assert |(dataMap - {k}).Keys| == |dataMap.Keys| - 1;
  }

  lemma RemoveHead<K>(s: seq<K>)
    requires s != []
    ensures Remove(s, s[0]) == s[1..]
  {}

  class LocalCache<K(==,!new), V> {
    const capacity: nat
    const cleanSize: nat
    const ttl: nat
    var dataMap: map<K, Entry<V>>
    var lruList: seq<K>
    var ttlList: seq<K>

    // When each key was last used, as a count of uses, and the latest time seen.
    ghost var used: map<K, int>
    ghost var uses: int
    ghost var clock: int

    ghost predicate Linked()
      reads this
    {
      && Consistent(dataMap, lruList, ttlList, used)
      && (forall k :: k in used ==> used[k] < uses)
      && (forall k :: k in dataMap ==> dataMap[k].loadTime <= clock)
      && (if capacity > 0 then cleanSize < capacity else cleanSize == 0)
    }

    ghost predicate Valid()
      reads this
    {
      Linked() && (capacity > 0 ==> |dataMap| < capacity)
    }

    constructor (capacity: nat, cleanSize: nat, ttl: nat)
      ensures Valid() && dataMap == map[] && this.capacity == capacity && this.ttl == ttl
      ensures this.cleanSize == if cleanSize >= capacity then capacity * 9 / 10 else cleanSize
    {
      this.capacity := capacity;
      this.cleanSize := if cleanSize >= capacity then capacity * 9 / 10 else cleanSize;
      this.ttl := ttl;
      dataMap, lruList, ttlList := map[], [], [];
      used, uses, clock := map[], 0, 0;
    }

    // The entries that are no older than the time to live.
    ghost function Alive(now: int): map<K, Entry<V>>
      reads this
    {
      AliveOf(dataMap, now - ttl)
    }

    // Drops the expired entries, the ones loaded first at the front of the load-time list.
    method CleanExpired(now: int)
      requires Linked() && clock <= now
      modifies this`dataMap, this`lruList, this`ttlList, this`clock
      ensures Linked() && clock == now && dataMap == old(Alive(now)) && |dataMap| <= old(|dataMap|)
      ensures forall k :: k in dataMap <==> k in old(dataMap) && old(dataMap)[k].loadTime >= now - ttl
      ensures forall k :: k in dataMap ==> dataMap[k] == old(dataMap)[k]
    {
      hide Rising, Level, Consistent;
      var timeLine := now - ttl;
      clock := now;
      ghost var start := dataMap;
      while ttlList != []
        invariant Linked() && |dataMap| <= |start|
        invariant forall k :: k in dataMap ==> k in start && dataMap[k] == start[k]
        invariant forall k :: k in start && k !in dataMap ==> start[k].loadTime < timeLine
        invariant clock == now
        decreases |ttlList|
      {
        var k := ttlList[0];
        FrontKnown(dataMap, lruList, ttlList, used);
        if dataMap[k].loadTime >= timeLine {
          break;
        }
        DropKey(dataMap, lruList, ttlList, used, k);
        RemoveHead(ttlList);
        lruList := Remove(lruList, k);
        dataMap := dataMap - {k};
        ttlList := ttlList[1..];
      }
      FrontIsOldest(dataMap, lruList, ttlList, used, timeLine);
      assert dataMap == AliveOf(start, timeLine);
    }

    // The value of a key that is present and alive; looking it up makes it the one used last.
    method Get(key: K, now: int) returns (re: Option<V>)
      requires Valid() && clock <= now
      modifies this
      ensures Valid() && clock == now && dataMap == old(Alive(now))
      ensures re.Some? <==> key in old(dataMap) && old(dataMap)[key].loadTime >= now - ttl
      ensures re.Some? ==> re.value == old(dataMap)[key].val
      ensures forall k :: k in dataMap <==> k in old(dataMap) && old(dataMap)[k].loadTime >= now - ttl
      ensures forall k :: k in dataMap ==> dataMap[k] == old(dataMap)[k]
      ensures used == if key in dataMap then old(used)[key := old(uses)] else old(used)
    {
      CleanExpired(now);
      if key !in dataMap {
        return None;
      }
      Touch(key);
      re := Some(dataMap[key].val);
    }

    // Moves a key to the end of the recency list.
    method Touch(key: K)
      requires Linked() && key in dataMap
      modifies this`lruList, this`used, this`uses
      ensures Linked() && used == old(used)[key := old(uses)] && uses == old(uses) + 1
    {
      hide Rising, Level;
      TouchKeeps(dataMap, lruList, ttlList, used, key, uses);
      lruList := Remove(lruList, key) + [key];
      used := used[key := uses];
      uses := uses + 1;
    }

    // A new key may bring the cache to its capacity, which cleans it up; a known key gets the new
    // value and the new load time. Either way it is the one used last. The clock is read once for
    // the load time and, if the cache is cleaned up, once more.
    method Update(key: K, val: V, now: int, later: int)
      requires Valid() && clock <= now <= later
      modifies this
      ensures Valid() && (capacity > 0 ==> |dataMap| < capacity)
      ensures used == old(used)[key := old(uses)]
      ensures var m := old(dataMap)[key := Entry(val, now)];
              if key in old(dataMap) || |m| < capacity then clock == now && dataMap == m
              else
                && clock == later
                && (var live := LiveCount(m, later - ttl); |dataMap| == if live <= cleanSize then live else cleanSize)
                && (forall k :: k in dataMap ==> k in m && dataMap[k] == m[k] && m[k].loadTime >= later - ttl)
                && (forall e, k :: e in m && m[e].loadTime >= later - ttl && e !in dataMap && k in dataMap ==>
                      e in used && k in used && used[e] < used[k])
    {
      hide Rising, Level, Consistent, LiveCount;
      if key !in dataMap {
        AddNew(key, Entry(val, now));
        if |dataMap| >= capacity {
          CleanUp(later);
        }
      } else {
        Reload(key, Entry(val, now));
      }
    }

    method AddNew(key: K, e: Entry<V>)
      requires Linked() && key !in dataMap && clock <= e.loadTime
      modifies this
      ensures Linked() && clock == e.loadTime && dataMap == old(dataMap)[key := e]
      ensures used == old(used)[key := old(uses)]
    {
      hide Rising, Level, Consistent;
      InsertKeeps(dataMap, lruList, ttlList, used, key, uses, e);
      clock := e.loadTime;
      dataMap := dataMap[key := e];
      lruList := lruList + [key];
      ttlList := ttlList + [key];
      used := used[key := uses];
      uses := uses + 1;
    }

    method Reload(key: K, e: Entry<V>)
      requires Linked() && key in dataMap && clock <= e.loadTime
      modifies this
      ensures Linked() && clock == e.loadTime && dataMap == old(dataMap)[key := e] && |dataMap| == |old(dataMap)|
      ensures used == old(used)[key := old(uses)]
    {
      hide Rising, Level, Consistent;
      ReloadKeeps(dataMap, lruList, ttlList, used, key, uses, e);
      clock := e.loadTime;
      dataMap := dataMap[key := e];
      lruList := Remove(lruList, key) + [key];
      ttlList := Remove(ttlList, key) + [key];
      used := used[key := uses];
      uses := uses + 1;
    }

    // After the expired entries, drops the least recently used ones down to the target size.
    method CleanUp(now: int)
      requires Linked() && clock <= now
      modifies this`dataMap, this`lruList, this`ttlList, this`clock
      ensures Linked() && clock == now
      ensures var live := LiveCount(old(dataMap), now - ttl); |dataMap| == if live <= cleanSize then live else cleanSize
      ensures forall k :: k in dataMap ==>
                k in old(dataMap) && dataMap[k] == old(dataMap)[k] && dataMap[k].loadTime >= now - ttl
      ensures forall e, k :: e in old(dataMap) && old(dataMap)[e].loadTime >= now - ttl && e !in dataMap && k in dataMap ==>
                e in used && k in used && used[e] < used[k]
    {
      hide Rising, Level, Consistent, AliveOf, Cleaned, LiveCount;
      ghost var start := dataMap;
      CleanExpired(now);
      ghost var alive := dataMap;
      if |dataMap| > cleanSize {
        Evict(|dataMap| - cleanSize);
      } else {
        NothingToClean(alive, used, cleanSize);
      }
      CleanedIsMostRecent(start, now - ttl, used, cleanSize, dataMap);
    }

    // Drops the count keys at the front of the recency list.
    method Evict(count: nat)
      requires Linked() && count == |dataMap| - cleanSize
      modifies this`dataMap, this`lruList, this`ttlList
      ensures Linked() && Cleaned(old(dataMap), used, cleanSize, dataMap)
    {
      hide Rising, Level, Consistent, Kept;
      ghost var alive := dataMap;
      var toClean := count;
      NothingEvicted(dataMap, lruList, ttlList, used);
      while lruList != [] && toClean > 0
        invariant Linked() && |dataMap| == cleanSize + toClean && Kept(alive, used, dataMap)
        decreases toClean
      {
        toClean := toClean - 1;
        var k := lruList[0];
        OneEvicted(alive, dataMap, lruList, ttlList, used);
        ttlList := Remove(ttlList, k);
        dataMap := dataMap - {k};
        lruList := lruList[1..];
      }
      Lengths(dataMap, lruList, ttlList, used);
      KeptIsCleaned(alive, used, cleanSize, dataMap);
    }

    // A deleted key is gone, and the expired entries with it.
    method Del(key: K, now: int)
      requires Valid() && clock <= now
      modifies this`dataMap, this`lruList, this`ttlList, this`clock
      ensures Valid() && clock == now
      ensures forall k :: k in dataMap <==> k != key && k in old(dataMap) && old(dataMap)[k].loadTime >= now - ttl
      ensures forall k :: k in dataMap ==> dataMap[k] == old(dataMap)[k]
    {
      hide Rising, Level, AliveOf;
      CleanExpired(now);
      if key !in dataMap {
        return;
      }
      hide Consistent;
      DropKey(dataMap, lruList, ttlList, used, key);
      lruList := Remove(lruList, key);
      ttlList := Remove(ttlList, key);
      dataMap := dataMap - {key};
    }
  }

  // Entries that are left, each used after every entry that is gone.
  ghost predicate Kept<K(!new), V>(alive: map<K, Entry<V>>, used: map<K, int>, r: map<K, Entry<V>>) {
    && (forall k :: k in alive ==> k in used)
    && (forall k :: k in r ==> k in alive && r[k] == alive[k])
    && (forall e, k :: e in alive && e !in r && k in r ==> used[e] < used[k])
  }

  lemma NothingEvicted<K(!new), V>(dataMap: map<K, Entry<V>>, lru: seq<K>, ttl: seq<K>, used: map<K, int>)
    requires Consistent(dataMap, lru, ttl, used)
    ensures Kept(dataMap, used, dataMap)
  {
    hide Rising, Level;
    UsedIn(dataMap, lru, ttl, used);
  }

  lemma OneEvicted<K(!new), V>(alive: map<K, Entry<V>>, dataMap: map<K, Entry<V>>, lru: seq<K>, ttl: seq<K>,
                               used: map<K, int>)
    requires Consistent(dataMap, lru, ttl, used) && Kept(alive, used, dataMap) && lru != []
    ensures Consistent(dataMap - {lru[0]}, lru[1..], Remove(ttl, lru[0]), used)
    ensures Kept(alive, used, dataMap - {lru[0]}) && |dataMap - {lru[0]}| == |dataMap| - 1
    ensures lru[0] in dataMap
  {
    hide Rising, Level;
    assert lru[0] in lru;
    DropKey(dataMap, lru, ttl, used, lru[0]);
    RemoveHead(lru);
    LeastUsed(lru, used);
  }

  lemma Lengths<K(!new), V>(dataMap: map<K, Entry<V>>, lru: seq<K>, ttl: seq<K>, used: map<K, int>)
    requires Consistent(dataMap, lru, ttl, used)
    ensures |lru| == |dataMap|
  {}

  lemma KeptIsCleaned<K(!new), V>(alive: map<K, Entry<V>>, used: map<K, int>, target: nat, r: map<K, Entry<V>>)
    requires Kept(alive, used, r) && |r| == target <= |alive|
    ensures Cleaned(alive, used, target, r)
  {}

  // What is left of the entries alive: all of them, or the target number of those used last.
  ghost predicate Cleaned<K(!new), V>(alive: map<K, Entry<V>>, used: map<K, int>, target: nat, r: map<K, Entry<V>>) {
    && |r| == (if |alive| <= target then |alive| else target)
    && (forall k :: k in r ==> k in alive && r[k] == alive[k])
    && (forall e, k :: e in alive && e !in r && k in r ==> e in used && k in used && used[e] < used[k])
  }

  // What a clean-up leaves of m: the entries loaded since the time line, or the target number of
  // them that were used last.
  ghost predicate MostRecent<K(!new), V>(m: map<K, Entry<V>>, line: int, used: map<K, int>, target: nat, r: map<K, Entry<V>>) {
    && |r| == (if LiveCount(m, line) <= target then LiveCount(m, line) else target)
    && (forall k :: k in r ==> k in m && r[k] == m[k] && m[k].loadTime >= line)
    && (forall e, k :: e in m && m[e].loadTime >= line && e !in r && k in r ==> e in used && k in used && used[e] < used[k])
  }

  ghost function LiveCount<K, V>(m: map<K, Entry<V>>, line: int): nat {
    |set k | k in m && m[k].loadTime >= line|
  }

  lemma CleanedIsMostRecent<K(!new), V>(m: map<K, Entry<V>>, line: int, used: map<K, int>, target: nat, r: map<K, Entry<V>>)
    requires Cleaned(AliveOf(m, line), used, target, r)
    ensures MostRecent(m, line, used, target, r)
  {
    var alive := AliveOf(m, line);
    AliveKeys(m, line);
    hide AliveOf, LiveCount;
    assert forall e, k :: e in m && m[e].loadTime >= line && e !in r && k in r ==> e in alive;
  }

  lemma AliveKeys<K, V>(m: map<K, Entry<V>>, line: int)
    ensures forall k :: k in AliveOf(m, line) <==> k in m && m[k].loadTime >= line
    ensures forall k :: k in AliveOf(m, line) ==> AliveOf(m, line)[k] == m[k]
    ensures |AliveOf(m, line)| == LiveCount(m, line)
  {
    assert AliveOf(m, line).Keys == set k | k in m && m[k].loadTime >= line;
  }

  lemma NothingToClean<K(!new), V>(alive: map<K, Entry<V>>, used: map<K, int>, target: nat)
    requires |alive| <= target
    ensures Cleaned(alive, used, target, alive)
  {}

  lemma UsedIn<K(!new), V>(dataMap: map<K, Entry<V>>, lru: seq<K>, ttl: seq<K>, used: map<K, int>)
    requires Consistent(dataMap, lru, ttl, used)
    ensures forall k :: k in dataMap ==> k in used
  {
    RisingIn(lru, used);
  }

  // The head of the recency list was used before every other key.
  lemma LeastUsed<K>(lru: seq<K>, used: map<K, int>)
    requires Rising(lru, used) && lru != []
    ensures forall k :: k in lru ==> k in used && (k == lru[0] || used[lru[0]] < used[k])
  {
    RisingIn(lru, used);
  }

  lemma FrontKnown<K(!new), V>(dataMap: map<K, Entry<V>>, lru: seq<K>, ttl: seq<K>, used: map<K, int>)
    requires Consistent(dataMap, lru, ttl, used) && ttl != []
    ensures ttl[0] in dataMap
  {
    assert ttl[0] in ttl;
  }

  // When the front of the load-time list is not expired, nothing is.
  lemma FrontIsOldest<K(!new), V>(dataMap: map<K, Entry<V>>, lru: seq<K>, ttl: seq<K>, used: map<K, int>, line: int)
    requires Consistent(dataMap, lru, ttl, used)
    requires ttl == [] || (ttl[0] in dataMap && dataMap[ttl[0]].loadTime >= line)
    ensures forall k :: k in dataMap ==> dataMap[k].loadTime >= line
  {
    forall k | k in dataMap
      ensures dataMap[k].loadTime >= line
    {
      assert k in ttl;
      assert k == ttl[0] || k in ttl[1..];
      assert LoadTimes(dataMap)[ttl[0]] <= LoadTimes(dataMap)[k];
    }
  }

  lemma TouchKeeps<K(!new), V>(dataMap: map<K, Entry<V>>, lru: seq<K>, ttl: seq<K>, used: map<K, int>, key: K, uses: int)
    requires Consistent(dataMap, lru, ttl, used) && key in dataMap && forall k :: k in used ==> used[k] < uses
    ensures Consistent(dataMap, Remove(lru, key) + [key], ttl, used[key := uses])
  {
    RemoveRising(lru, key, used);
    RisingIn(Remove(lru, key), used);
    AppendRising(Remove(lru, key), key, used, uses);
  }

  lemma InsertKeeps<K(!new), V>(dataMap: map<K, Entry<V>>, lru: seq<K>, ttl: seq<K>, used: map<K, int>, key: K, uses: int,
                           e: Entry<V>)
    requires Consistent(dataMap, lru, ttl, used) && key !in dataMap && forall k :: k in used ==> used[k] < uses
    requires forall k :: k in dataMap ==> dataMap[k].loadTime <= e.loadTime
    ensures Consistent(dataMap[key := e], lru + [key], ttl + [key], used[key := uses])
    ensures |dataMap[key := e]| == |dataMap| + 1
  {
    RisingIn(lru, used);
    AppendRising(lru, key, used, uses);
    AppendLevel(ttl, key, LoadTimes(dataMap), e.loadTime);
    assert LoadTimes(dataMap)[key := e.loadTime] == LoadTimes(dataMap[key := e]);
  }

  lemma ReloadKeeps<K(!new), V>(dataMap: map<K, Entry<V>>, lru: seq<K>, ttl: seq<K>, used: map<K, int>, key: K, uses: int,
                           e: Entry<V>)
    requires Consistent(dataMap, lru, ttl, used) && key in dataMap && forall k :: k in used ==> used[k] < uses
    requires forall k :: k in dataMap ==> dataMap[k].loadTime <= e.loadTime
    ensures Consistent(dataMap[key := e], Remove(lru, key) + [key], Remove(ttl, key) + [key], used[key := uses])
    ensures |dataMap[key := e]| == |dataMap|
  {
    TouchKeeps(dataMap, lru, ttl, used, key, uses);
    RemoveLevel(ttl, key, LoadTimes(dataMap));
    AppendLevel(Remove(ttl, key), key, LoadTimes(dataMap), e.loadTime);
    assert LoadTimes(dataMap)[key := e.loadTime] == LoadTimes(dataMap[key := e]);
    assert dataMap[key := e].Keys == dataMap.Keys;
    assert |dataMap[key := e].Keys| == |dataMap.Keys|;
  }
}
