/** The memory-pool store on top of the hash table: expiry sweep, and a set that retries after one. */
module MemoryPool {
  import opened Bytes
  import opened HashChains
  import opened HashTable
  import Counters
  import opened Decimal
  import Replication

  /** Values start with a four-byte expiry; 0 means never. */
  predicate Stamped(v: Value) { |v| >= 4 }

  predicate Expired(v: Value, now: int) {
    Stamped(v) && GetInt(v) != 0 && GetInt(v) <= now
  }

  ghost predicate AllStamped(m: map<Key, Value>) { forall k :: k in m ==> Stamped(m[k]) }

  /** The map without its expired entries. */
  function Swept(m: map<Key, Value>, now: int): map<Key, Value> {
    map k | k in m && !Expired(m[k], now) :: m[k]
  }

  /**
    The sweep at a time keeps exactly the entries that a get at some later time shows. Of those it takes,
    a get at the same time still shows the ones that expire at that very time.
   */
  lemma SweptExactly(m: map<Key, Value>, now: int, k: Key)
    requires AllStamped(m) && k in m
    ensures k in Swept(m, now) <==> exists t :: t > now && Replication.VisibleAt(m, k, t)
    ensures k in Swept(m, now) ==> Swept(m, now)[k] == m[k]
    ensures k !in Swept(m, now) && Replication.VisibleAt(m, k, now) <==> GetInt(m[k]) == now != 0
  {
    hide GetInt;
    assert Stamped(m[k]);
    if k in Swept(m, now) {
      var t := if GetInt(m[k]) == 0 then now + 1 else GetInt(m[k]);
      assert Replication.VisibleAt(m, k, t);
    }
  }

  /** Every get after `now` sees the same in both, and the second holds nothing that the first does not. */
  ghost predicate ShowsAlike(a: map<Key, Value>, b: map<Key, Value>, now: int) {
    && (forall k | k in b :: k in a && b[k] == a[k])
    && (forall k, t | t > now :: Replication.VisibleAt(b, k, t) <==> Replication.VisibleAt(a, k, t))
  }

  /** Every entry is still shown by some get after `now`. */
  ghost predicate AllShown(m: map<Key, Value>, now: int) {
    forall k | k in m :: exists t :: t > now && Replication.VisibleAt(m, k, t)
  }

  lemma SameShows(m: map<Key, Value>, now: int)
    ensures ShowsAlike(m, m, now)
  {
  }

  lemma SweepShows(m: map<Key, Value>, now: int)
    requires AllStamped(m)
    ensures ShowsAlike(m, Swept(m, now), now) && AllShown(Swept(m, now), now)
  {
    hide GetInt;
    var b := Swept(m, now);
    forall k | k in b ensures exists t :: t > now && Replication.VisibleAt(b, k, t) {
      SweptExactly(m, now, k);
      var t :| t > now && Replication.VisibleAt(m, k, t);
      assert Replication.VisibleAt(b, k, t);
    }
    forall k, t | t > now ensures Replication.VisibleAt(b, k, t) <==> Replication.VisibleAt(m, k, t) {
      if k in m {
        SweptExactly(m, now, k);
      }
    }
  }

  /** A counter that a get does not show starts again at the increment. */
  lemma HiddenRestarts(m: map<Key, Value>, k: Key, inc: int, expires: int, now: int)
    requires AllStamped(m) && k in m && !Replication.VisibleAt(m, k, now)
    ensures Counters.IncValue(Some(m[k]), inc, expires, now) == PutInt(expires) + Show(inc)
  {
    hide GetInt, PutInt, Show;
  }

  /** A chain without its expired nodes, in the same order. */
  function Kept(c: seq<Node>, now: int): (d: seq<Node>)
    ensures |d| <= |c|
    decreases |c|
  {
    if c == [] then []
    else
      var last := c[|c| - 1];
      Kept(c[..|c| - 1], now) + if Expired(last.value, now) then [] else [last]
  }

  lemma {:induction false} KeptIs(c: seq<Node>, now: int)
    requires Distinct(c)
    ensures Distinct(Kept(c, now)) && forall n :: n in Kept(c, now) <==> n in c && !Expired(n.value, now)
    ensures Footprint(Kept(c, now)) <= Footprint(c)
    decreases |c|
  {
    hide Footprint, Expired;
    if c != [] {
      var front, last := c[..|c| - 1], c[|c| - 1];
      KeptIs(front, now);
      assert c == front + [last];
      FootprintConcat(front, [last]);
      FootprintConcat(Kept(front, now), [last]);
      assert Kept(front, now) + [] == Kept(front, now);
      forall n | n in Kept(front, now) ensures n.key != last.key {
        assert n in front;
      }
    }
  }

  /** What a sweep frees of a list of nodes, leaving one key aside. */
  ghost function Taken(c: seq<Node>, but: Option<Key>, now: int): (n: nat)
    decreases |c|
  {
    if c == [] then 0
    else (if Expired(c[0].value, now) && but != Some(c[0].key) then NodeBytes(c[0]) else 0) + Taken(c[1..], but, now)
  }

  lemma {:induction false} TakenConcat(a: seq<Node>, b: seq<Node>, but: Option<Key>, now: int)
    ensures Taken(a + b, but, now) == Taken(a, but, now) + Taken(b, but, now)
    decreases |a|
  {
    hide Expired, NodeBytes;
    if a == [] {
      assert a + b == b;
    } else {
      TakenConcat(a[1..], b, but, now);
      assert (a + b)[1..] == a[1..] + b;
    }
  }

  lemma {:induction false} KeptBytes(c: seq<Node>, now: int)
    ensures Footprint(Kept(c, now)) == Footprint(c) - Taken(c, None, now)
    ensures |Kept(c, now)| < |c| <==> Taken(c, None, now) > 0
    decreases |c|
  {
    hide Footprint, Expired;
    KeptNothing(now);
    if c != [] {
      var front, last := c[..|c| - 1], c[|c| - 1];
      KeptBytes(front, now);
      assert c == front + [last];
      FootprintConcat(front, [last]);
      FootprintConcat(Kept(front, now), [last]);
      FootprintOne(last);
      TakenConcat(front, [last], None, now);
      assert [last][1..] == [];
      assert Kept(front, now) + [] == Kept(front, now);
    }
  }

  /** Without a node of the key it makes no difference to leave it aside. */
  lemma {:induction false} TakenAnyway(c: seq<Node>, key: Key, now: int)
    requires forall n | n in c :: n.key != key
    ensures Taken(c, Some(key), now) == Taken(c, None, now)
    decreases |c|
  {
    hide Expired, NodeBytes;
    if c != [] {
      TakenAnyway(c[1..], key, now);
    }
  }

  lemma TakenRemoved(c: seq<Node>, i: nat, now: int)
    requires Distinct(c) && i < |c|
    ensures Taken(RemoveAt(c, i), None, now) == Taken(c, Some(c[i].key), now)
  {
    hide Expired, NodeBytes, Taken;
    var key, a, b := c[i].key, c[..i], c[i + 1..];
    assert c == a + ([c[i]] + b);
    TakenConcat(a, [c[i]] + b, Some(key), now);
    TakenConcat([c[i]], b, Some(key), now);
    TakenConcat(a, b, None, now);
    TakenAnyway(a, key, now);
    TakenAnyway(b, key, now);
    TakenOwn(c[i], now);
  }

  lemma TakenOwn(n: Node, now: int)
    ensures Taken([n], Some(n.key), now) == 0
  {
    assert [n][1..] == [];
  }

  /** A failed insertion leaves what a sweep would free, but for its own key. */
  lemma TakenLoses(h: HashFunc, t: Table, u: Table, key: Key, now: int)
    requires Placed(h, t) && Loses(t, u, key)
    ensures Taken(Flatten(u), None, now) == Taken(Flatten(t), Some(key), now)
  {
    hide Taken, Flatten, Distinct, Lookup, RemoveAt, Bucket, Fits;
    FlattenDistinct(h, t, 0);
    assert t[0..] == t;
    if Lookup(Flatten(t), key).None? {
      TakenAnyway(Flatten(t), key, now);
    } else {
      var b, i :| 0 <= b < |t| && 0 <= i < |t[b]| && t[b][i].key == key && u == t[b := RemoveAt(t[b], i)];
      var left, right := Flatten(t[..b]), Flatten(t[b + 1..]);
      FlattenAt(t, b);
      FlattenAt(u, b);
      assert u[..b] == t[..b] && u[b + 1..] == t[b + 1..];
      RemoveWithin(left, t[b], right, i);
      TakenRemoved(Flatten(t), |left| + i, now);
    }
  }

  lemma RemoveWithin(left: seq<Node>, c: seq<Node>, right: seq<Node>, i: nat)
    requires i < |c|
    ensures (left + c + right)[|left| + i] == c[i]
    ensures RemoveAt(left + c + right, |left| + i) == left + RemoveAt(c, i) + right
  {
  }

  lemma KeptLookup(c: seq<Node>, now: int, k: Key)
    requires Distinct(c)
    ensures Lookup(Kept(c, now), k)
         == if Lookup(c, k).Some? && Expired(Lookup(c, k).value.value, now) then None else Lookup(c, k)
  {
    hide Kept, Expired;
    KeptIs(c, now);
    var d := Kept(c, now);
    if Lookup(c, k).Some? {
      var n := Lookup(c, k).value;
      if !Expired(n.value, now) {
        assert n in d && Lookup(d, k).Some?;
        var i :| 0 <= i < |d| && d[i] == n;
        LookupAt(d, i);
      } else {
        assert forall x :: x in d ==> x.key != k by {
          forall x | x in d ensures x.key != k {
            var i :| 0 <= i < |c| && c[i] == x;
            LookupAt(c, i);
          }
        }
      }
    }
  }

  lemma SweptBucket(h: HashFunc, t: Table, b: nat, now: int, k: Key)
    requires Placed(h, t) && b < |t|
    ensures Placed(h, t[b := Kept(t[b], now)])
    ensures Lookup(Flatten(t[b := Kept(t[b], now)]), k)
         == (var n := Lookup(Flatten(t), k);
             if n.Some? && Bucket(h, t, k) == b && Expired(n.value.value, now) then None else n)
  {
    hide Flatten, Kept, Expired, Lookup;
    var c := Kept(t[b], now);
    var u := t[b := c];
    KeptIs(t[b], now);
    forall i | 0 <= i < |c| ensures Bucket(h, u, c[i].key) == b && Fits(c[i]) {
      assert c[i] in t[b];
    }
    assert Placed(h, u);
    LookupUpdate(h, t, b, c, k);
    KeptLookup(t[b], now, k);
    LookupBucket(h, t, k);
  }

  /** `b` is `a` without some entries expired at `t` or `u`, whatever happened to `key`. */
  ghost predicate OnlyExpiredLost(a: map<Key, Value>, b: map<Key, Value>, key: Key, t: int, u: int) {
    && (forall k | k in b :: k != key ==> k in a && b[k] == a[k])
    && (forall k | k in a && k !in b :: k != key ==> Expired(a[k], t) || Expired(a[k], u))
  }

  lemma LostNone(a: map<Key, Value>, key: Key, t: int, u: int)
    ensures OnlyExpiredLost(a, a, key, t, u)
  {
  }

  lemma LostBy(a: map<Key, Value>, b: map<Key, Value>, c: map<Key, Value>, key: Key, t: int, u: int)
    requires OnlyExpiredLost(a, b, key, t, u) && (OnlyExpiredLost(b, c, key, t, t) || OnlyExpiredLost(b, c, key, u, u))
    ensures OnlyExpiredLost(a, c, key, t, u)
  {
  }

  /** The bytes of the node of a key, if there is one. */
  function KeyShare(n: Option<Node>): nat { if n.Some? then NodeBytes(n.value) else 0 }

  function Code(result: int): int { if result < 0 then -result else 0 }

  class Pool {
    const table: HashArray
    const needClear: bool  // g_need_clear_expired_data
    const minInterval: int  // g_mpool_clear_min_interval
    var lastClear: int
    var clearing: bool

    constructor (table: HashArray, needClear: bool, minInterval: int)
      ensures this.table == table && lastClear == 0 && !clearing
    {
      this.table, this.needClear, this.minInterval := table, needClear, minInterval;
      lastClear, clearing := 0, false;
    }

    ghost predicate Valid()
      reads this, table, table.buckets
    {
      table.Valid() && AllStamped(table.Contents())
    }

    /** The inner loop: unlink and free the expired nodes of one chain. */
    method SweepBucket(b: nat, now: int)
      requires table.Valid() && b < table.buckets.Length
      modifies table`itemCount, table`bytesUsed, table.buckets
      ensures table.buckets[..] == old(table.buckets[..])[b := Kept(old(table.buckets[b]), now)]
      ensures table.Valid() && table.bytesUsed == old(table.bytesUsed) - Taken(old(table.buckets[b]), None, now)
      ensures table.itemCount <= old(table.itemCount)
      ensures table.itemCount < old(table.itemCount) <==> Taken(old(table.buckets[b]), None, now) > 0
    {
      hide Placed, Flatten, Expired, Kept, Footprint, NodeBytes, Taken;
      ghost var t := table.buckets[..];
      KeptNothing(now);
      KeptBytes(table.buckets[b], now);
      var chain := table.buckets[b];
      var kept := [];
      var i := 0;
      while i < |chain|
        invariant 0 <= i <= |chain| && kept == Kept(chain[..i], now)
        invariant table.buckets[..] == t
        invariant table.itemCount == old(table.itemCount) - i + |kept|
        invariant table.bytesUsed == old(table.bytesUsed) - Footprint(chain[..i]) + Footprint(kept)
      {
        KeptStep(chain, i, now);
        if Expired(chain[i].value, now) {
          table.itemCount := table.itemCount - 1;
          table.bytesUsed := table.bytesUsed - NodeBytes(chain[i]);
        } else {
          kept := kept + [chain[i]];
        }
        i := i + 1;
      }
      assert chain[..i] == chain;
      table.buckets[b] := kept;
      assert table.buckets[..] == t[b := kept];
      SweptBucket(table.hash, t, b, now, []);
      FlattenUpdate(t, b, kept);
    }

    /**
      `mp_clear_expired_keys`: removes exactly the entries whose expiry has come, returns their
      number and lowers the counters by theirs; or does nothing when a sweep is running or the
      last one is too recent. `finish` is the clock at the end of the sweep.
     */
    method Clear(now: int, finish: int) returns (removed: int)
      requires Valid()
      modifies this`lastClear, this`clearing, table`itemCount, table`bytesUsed, table.buckets
      ensures Valid()
      ensures var sweeps := !old(clearing) && now - old(lastClear) >= minInterval;
              && table.Contents() == (if sweeps then Swept(old(table.Contents()), now) else old(table.Contents()))
              && (!sweeps ==> removed == 0 && lastClear == old(lastClear))
              && (sweeps ==> lastClear == finish)
      ensures ShowsAlike(old(table.Contents()), table.Contents(), now)
      ensures !old(clearing) && now - old(lastClear) >= minInterval ==> AllShown(table.Contents(), now)
      ensures removed == old(table.itemCount) - table.itemCount
      ensures clearing == old(clearing)
      ensures var sweeps := !old(clearing) && now - old(lastClear) >= minInterval;
              var taken := if sweeps then Taken(Flatten(old(table.buckets[..])), None, now) else 0;
              table.bytesUsed == old(table.bytesUsed) - taken && (removed > 0 <==> taken > 0)
      ensures removed >= 0
    {
      hide ToMap, Flatten, Placed, Lookup, Expired, Swept, ShowsAlike, AllShown, Taken;
      SameShows(table.Contents(), now);
      removed := 0;
      if clearing || now - lastClear < minInterval {
        return;
      }
      SweepShows(table.Contents(), now);
      clearing := true;
      var before := table.itemCount;
      SweepAll(now);
      clearing := false;
      lastClear := finish;
      removed := before - table.itemCount;
    }

    /**
      `mp_set`: at most two insertions, the second only after a sweep that freed something.
      `clock[i]` holds the time before and after a sweep at turn `i`, `memory[i]` whether the
      allocations of turn `i` succeed. On success the key holds the value; on failure it is gone
      even if it was there before. Apart from it the pool loses only entries that had expired,
      and none at all unless the first insertion ran out of space and sweeping is switched on.
     */
    method Set(key: Key, value: Value, clock: seq<(int, int)>, memory: seq<(bool, bool)>) returns (result: int)
      requires Valid() && Stamped(value) && |clock| == |memory| == 2
      modifies this`lastClear, this`clearing, table, table.buckets
      ensures Valid() && (table.buckets == old(table.buckets) || fresh(table.buckets))
      ensures result == 0 <==> key in table.Contents()
      ensures result == 0 ==> table.Contents()[key] == value
      ensures OnlyExpiredLost(old(table.Contents()), table.Contents(), key, clock[0].0, clock[1].0)
      ensures var first := InsertResult(old(table.NodeOf(key)), old(table.bytesUsed), table.maxBytes,
                                        key, value, memory[0].0);
              !needClear || first != -ENOSPC ==>
                && result == Code(first)
                && table.Contents() - {key} == old(table.Contents()) - {key}
      ensures var node, used := old(table.NodeOf(key)), old(table.bytesUsed);
              var sweeps := !old(clearing) && clock[0].0 - old(lastClear) >= minInterval;
              var taken := if sweeps then Taken(Flatten(old(table.buckets[..])), Some(key), clock[0].0) else 0;
              needClear && InsertResult(node, used, table.maxBytes, key, value, memory[0].0) == -ENOSPC ==>
                result == if taken == 0 then ENOSPC
                          else Code(InsertResult(None, used - KeyShare(node) - taken, table.maxBytes, key, value,
                                                 memory[1].0))
      ensures old(table.WithinCap()) ==> table.WithinCap()
    {
      hide Expired, InsertResult, ToMap, Flatten, Placed, Lookup, OnlyExpiredLost, Taken, KeyShare;
      ghost var m := table.Contents();
      ghost var node, used := table.NodeOf(key), table.bytesUsed;
      ghost var sweeps := !clearing && clock[0].0 - lastClear >= minInterval;
      ghost var taken := if sweeps then Taken(Flatten(table.buckets[..]), Some(key), clock[0].0) else 0;
      ghost var first := InsertResult(table.NodeOf(key), table.bytesUsed, table.maxBytes, key, value, memory[0].0);
      LostNone(m, key, clock[0].0, clock[1].0);
      result := ENOSPC;
      var i := 0;
      while i < 2
        invariant 0 <= i <= 2 && Valid() && (table.buckets == old(table.buckets) || fresh(table.buckets))
        invariant OnlyExpiredLost(m, table.Contents(), key, clock[0].0, clock[1].0)
        invariant i == 0 ==> table.Contents() == m && table.bytesUsed == used && table.NodeOf(key) == node
        invariant i == 0 ==>
            table.buckets[..] == old(table.buckets[..]) && clearing == old(clearing) && lastClear == old(lastClear)
        invariant i > 0 ==> result == ENOSPC && needClear && first == -ENOSPC && key !in table.Contents()
        invariant i > 0 ==> taken > 0
        invariant i == 1 ==> table.NodeOf(key) == None && table.bytesUsed == used - KeyShare(node) - taken
        invariant i == 2 ==>
            ENOSPC == Code(InsertResult(None, used - KeyShare(node) - taken, table.maxBytes, key, value, memory[1].0))
        invariant old(table.WithinCap()) ==> table.WithinCap()
      {
        ghost var before := table.Contents();
        var again;
        result, again := Attempt(key, value, clock[i], memory[i]);
        LostBy(m, before, table.Contents(), key, clock[0].0, clock[1].0);
        if !again {
          break;
        }
        i := i + 1;
      }
    }

    /** One turn of the loop of `mp_do_set`; `again` when a sweep has made room to try once more. */
    method Attempt(key: Key, value: Value, clock: (int, int), memory: (bool, bool)) returns (result: int, again: bool)
      requires Valid() && Stamped(value)
      modifies this`lastClear, this`clearing, table, table.buckets
      ensures Valid() && (table.buckets == old(table.buckets) || fresh(table.buckets))
      ensures result == 0 <==> key in table.Contents()
      ensures result == 0 ==> table.Contents()[key] == value
      ensures OnlyExpiredLost(old(table.Contents()), table.Contents(), key, clock.0, clock.0)
      ensures var node, used := old(table.NodeOf(key)), old(table.bytesUsed);
              var first := InsertResult(node, used, table.maxBytes, key, value, memory.0);
              var sweeps := needClear && first == -ENOSPC && !old(clearing) && clock.0 - old(lastClear) >= minInterval;
              var taken := if sweeps then Taken(Flatten(old(table.buckets[..])), Some(key), clock.0) else 0;
              && result == (if first < 0 then -first else 0)
              && (again <==> taken > 0)
              && (result != 0 ==> table.NodeOf(key) == None && table.bytesUsed == used - KeyShare(node) - taken)
              && (!needClear || first != -ENOSPC ==> table.Contents() - {key} == old(table.Contents()) - {key})
      ensures old(table.WithinCap()) ==> table.WithinCap()
    {
      hide Expired, InsertResult, ToMap, Flatten, Placed, Lookup, Taken, Loses, NodeBytes;
      again := false;
      ghost var t := table.buckets[..];
      result := table.Insert(key, value, memory.0, memory.1);
      if result >= 0 {
        return 0, false;
      }
      TakenLoses(table.hash, t, table.buckets[..], key, clock.0);
      result := -result;
      if result == ENOSPC && needClear {
        var removed := Clear(clock.0, clock.1);
        again := removed > 0;
      }
      MapIsLookup(Flatten(table.buckets[..]), key);
    }

    /** `mp_inc_ex`: the counter becomes what `mp_inc_value` makes of it, or the key is lost. */
    method Inc(key: Key, inc: int, expires: int, now: int, memory: bool, rehashMemory: bool)
      returns (result: int, value: Value)
      requires Valid()
      modifies table, table.buckets
      ensures Valid() && (table.buckets == old(table.buckets) || fresh(table.buckets))
      ensures var m := old(table.Contents());
              var v := Counters.IncValue(if key in m then Some(m[key]) else None, inc, expires, now);
              if result == 0 then value == v && table.Contents() == m[key := v] else table.Contents() == m - {key}
      ensures var node, m := old(table.NodeOf(key)), old(table.Contents());
              var v := Counters.IncValue(if key in m then Some(m[key]) else None, inc, expires, now);
              result == if node.Some? && |v| <= node.value.size then 0
                        else Code(InsertResult(node, old(table.bytesUsed), table.maxBytes, key, v, memory))
      ensures result == 0 && !Replication.VisibleAt(old(table.Contents()), key, now) ==>
                value == PutInt(expires) + Show(inc)
      ensures result == 0 || result == ENOSPC || result == ENOMEM
      ensures old(table.WithinCap()) ==> table.WithinCap()
    {
      ghost var m := table.Contents();
      if key in m && !Replication.VisibleAt(m, key, now) {
        HiddenRestarts(m, key, inc, expires, now);
      }
      Counters.OthersRestart([], inc, expires, now);
      hide Counters.NewCount, ToMap, Flatten, Placed, Lookup, Replication.VisibleAt, Show;
      result, value := table.Inc(key, stored => Counters.IncValue(stored, inc, expires, now), memory, rehashMemory);
    }

    method SweepAll(now: int)
      requires Valid()
      modifies table`itemCount, table`bytesUsed, table.buckets
      ensures Valid() && table.Contents() == Swept(old(table.Contents()), now)
      ensures table.bytesUsed == old(table.bytesUsed) - Taken(Flatten(old(table.buckets[..])), None, now)
      ensures table.itemCount <= old(table.itemCount)
      ensures table.itemCount < old(table.itemCount) <==> Taken(Flatten(old(table.buckets[..])), None, now) > 0
    {
      hide Placed, Flatten, Expired, ToMap, Kept, Taken;
      ghost var t, h := table.buckets[..], table.hash;
      assert t != [] by { PlacedNonempty(h, t); }
      var b := 0;
      assert t[..0] == [];
      TakenNothing(now);
      while b < table.buckets.Length
        invariant 0 <= b <= table.buckets.Length && table.buckets.Length == |t|
        invariant table.Valid() && table.itemCount <= old(table.itemCount)
        invariant table.bytesUsed == old(table.bytesUsed) - Taken(Flatten(t[..b]), None, now)
        invariant table.itemCount < old(table.itemCount) <==> Taken(Flatten(t[..b]), None, now) > 0
        invariant table.buckets[b..] == t[b..]
        invariant forall k :: Lookup(Flatten(table.buckets[..]), k) == SweptTo(h, t, now, b, k)
      {
        ghost var u := table.buckets[..];
        ghost var swept, next := u[b := Kept(u[b], now)], b + 1;
        forall k ensures Lookup(Flatten(swept), k) == SweptTo(h, t, now, next, k) {
          SweptBucket(h, u, b, now, k);
          assert Lookup(Flatten(u), k) == SweptTo(h, t, now, b, k);
        }
        TakenNext(t, b, now);
        assert u[b] == t[b] by { assert u[b..][0] == t[b..][0]; }
        SweepBucket(b, now);
        assert swept[next..] == t[next..] by {
          assert u[b..][1..] == t[b..][1..];
        }
        b := b + 1;
      }
      assert t[..b] == t;
      SweptView(h, t, table.buckets[..], now);
    }
  }

  lemma KeptNothing(now: int)
    ensures Kept([], now) == [] && Footprint([]) == 0
  {
  }

  /** One more node of a chain, kept or not. */
  lemma KeptStep(c: seq<Node>, i: nat, now: int)
    requires i < |c|
    ensures Footprint(c[..i + 1]) == Footprint(c[..i]) + NodeBytes(c[i])
    ensures Kept(c[..i + 1], now) == Kept(c[..i], now) + (if Expired(c[i].value, now) then [] else [c[i]])
    ensures Footprint(Kept(c[..i], now) + [c[i]]) == Footprint(Kept(c[..i], now)) + NodeBytes(c[i])
  {
    hide Footprint, Expired;
    assert c[..i + 1][..i] == c[..i] && c[..i + 1] == c[..i] + [c[i]];
    FootprintConcat(c[..i], [c[i]]);
    FootprintOne(c[i]);
    FootprintConcat(Kept(c[..i], now), [c[i]]);
  }

  lemma FootprintOne(n: Node)
    ensures Footprint([n]) == NodeBytes(n)
  {
  }

  lemma TakenNothing(now: int)
    ensures Taken(Flatten([]), None, now) == 0
  {
  }

  lemma TakenNext(t: Table, b: nat, now: int)
    requires b < |t|
    ensures Taken(Flatten(t[..b + 1]), None, now) == Taken(Flatten(t[..b]), None, now) + Taken(t[b], None, now)
  {
    hide Taken, Flatten;
    assert t[..b + 1] == t[..b] + [t[b]];
    FlattenConcat(t[..b], [t[b]]);
    FlattenOne(t[b]);
    TakenConcat(Flatten(t[..b]), t[b], None, now);
  }

  lemma FlattenOne(c: seq<Node>)
    ensures Flatten([c]) == c
  {
    assert [c][1..] == [];
  }

  /** What the table knows of a key when the buckets before `b` have been swept. */
  ghost function SweptTo(h: HashFunc, t: Table, now: int, b: nat, k: Key): Option<Node>
    requires t != []
  {
    var n := Lookup(Flatten(t), k);
    if n.Some? && Bucket(h, t, k) < b && Expired(n.value.value, now) then None else n
  }

  lemma SweptView(h: HashFunc, t: Table, u: Table, now: int)
    requires t != [] && forall k :: Lookup(Flatten(u), k) == SweptTo(h, t, now, |t|, k)
    ensures View(u) == Swept(View(t), now)
  {
    hide Flatten, ToMap, Lookup, Expired;
    forall k
      ensures k in View(u) <==> k in Swept(View(t), now)
      ensures k in View(u) ==> View(u)[k] == View(t)[k]
    {
      MapIsLookup(Flatten(t), k);
      MapIsLookup(Flatten(u), k);
    }
  }
}
