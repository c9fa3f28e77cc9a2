/** The scheduler: an array of entries, chained in the order they fall due. */
module Scheduler {
  import opened Bytes
  import opened Schedule

  class Context {
    var entries: array<Entry>
    var count: nat
    var head: int
    var tail: int
    var clock: int  // g_current_time
    ghost var chain: seq<nat>

    /** The chain runs through all entries, from head to tail. */
    ghost predicate Chained()
      reads this, entries
    {
      && count <= entries.Length && |chain| == count && Covers(chain, count)
      && Linked(entries[..count], head, chain) && tail == (if count == 0 then -1 else chain[count - 1])
    }

    ghost function Queue(): (q: seq<Task>)
      requires Chained()
      reads this, entries
      ensures |q| == count
    {
      InBounds(entries[..count], head, chain);
      Order(entries[..count], chain)
    }

    ghost predicate Valid()
      reads this, entries
    {
      Chained() && Ascending(Queue()) && Bounded(Listed(), clock) && Close(Listed())
    }

    /** The entries in array order. */
    ghost function Listed(): seq<Task>
      requires count <= entries.Length
      reads this, entries
    {
      Tasks(entries[..count])
    }

    /**
      `sched_make_chain`: sort the array, then link neighbours. `sorted` is the array as `qsort`
      leaves it, in whatever order it puts equal times.
     */
    method MakeChain(sorted: seq<Task>)
      requires count <= entries.Length && |sorted| == count
      modifies this`head, this`tail, this`chain, entries
      ensures Chained() && Listed() == sorted && Queue() == sorted
    {
      if count == 0 {
        head, tail, chain := -1, -1, [];
        assert Listed() == sorted && Queue() == sorted;
        return;
      }
      forall i | 0 <= i < count {
        entries[i] := entries[i].(task := sorted[i]);
      }
      head, tail := 0, count - 1;
      LinkNeighbours();
      chain := seq(count, k => k);
      assert Straight(entries[..count], sorted);
      StraightIsLinked(entries[..count], sorted, chain);
    }

    /** The loop of it. */
    method LinkNeighbours()
      requires 0 < count <= entries.Length && tail == count - 1
      modifies entries
      ensures forall j | 0 <= j < count :: entries[j] == Entry(old(entries[j].task), if j == tail then -1 else j + 1)
    {
      var i := 0;
      while i < tail
        invariant 0 <= i <= tail
        invariant forall j | 0 <= j < count :: entries[j].task == old(entries[j].task)
        invariant forall j | 0 <= j < i :: entries[j].next == j + 1
      {
        entries[i] := entries[i].(next := i + 1);
        i := i + 1;
      }
      entries[tail] := entries[tail].(next := -1);
    }

    /** Runs the chain from its head as long as tasks are due; `current` is the first that is not. */
    method Execute(now: int) returns (ran: seq<Task>, current: int)
      requires Valid()
      modifies entries
      ensures Chained() && |ran| <= count && current == At(chain, |ran|)
      ensures ran == old(Queue())[..|ran|]
      ensures forall k | 0 <= k < |ran| :: old(Queue())[k].due <= now
      ensures |ran| < count ==> old(Queue())[|ran|].due > now
      ensures Queue() == RunAll(old(Queue()), now)
      ensures Listed() == RunAll(old(Listed()), now)
    {
      hide RanTo, Ascending, Linked, Covers, LinkedAt, RunAll, Tasks, Run;
      ghost var es, c := entries[..count], chain;
      InBounds(es, head, c);
      assert Queue() == Order(es, c);
      ran, current := RunChain(now);
      RanAt(es, entries[..count], head, c, |ran|, now);
      RanAll(es, entries[..count], c, |ran|, now);
    }

    /** The loop of it. */
    method RunChain(now: int) returns (ran: seq<Task>, current: int)
      requires Chained() && forall k | 0 <= k < count :: chain[k] < count
      modifies entries
      ensures |ran| <= count && current == At(chain, |ran|)
      ensures var es := old(entries[..count]);
              var q := Order(es, chain);
              && RanTo(es, entries[..count], chain, |ran|, now) && ran == q[..|ran|]
              && (forall j | 0 <= j < |ran| :: q[j].due <= now) && (|ran| < count ==> q[|ran|].due > now)
    {
      hide RanTo, Linked, Covers, LinkedAt, Run;
      ghost var es, c := entries[..count], chain;
      ghost var q := Order(es, c);
      HeadIs(es, head, c);
      RanNone(es, c, now);
      ran, current := [], head;
      while current != -1 && entries[current].task.due <= now
        invariant |ran| <= count && current == At(c, |ran|)
        invariant RanTo(es, entries[..count], c, |ran|, now) && ran == q[..|ran|]
        invariant forall j | 0 <= j < |ran| :: q[j].due <= now
        decreases count - |ran|
      {
        ghost var fs, k := entries[..count], |ran|;
        RanAt(es, fs, head, c, k, now);
        RanOne(es, fs, c, k, now);
        assert entries[current] == fs[c[k]] && q[k] == es[c[k]].task;
        ran := ran + [entries[current].task];
        RunEntry(current, now);
        current := entries[current].next;
      }
      ghost var fs, k := entries[..count], |ran|;
      RanAt(es, fs, head, c, k, now);
      assert k < count ==> entries[current] == fs[c[k]] && q[k] == es[c[k]].task;
    }

    method RunEntry(i: nat, now: int)
      requires i < count <= entries.Length
      modifies entries
      ensures var es := old(entries[..count]); entries[..count] == es[i := es[i].(task := Run(es[i].task, now))]
    {
      entries[i] := entries[i].(task := Run(entries[i].task, now));
    }

    /** A chain through some of the entries, sorted, from head to tail. */
    ghost predicate Sorted(c: seq<nat>)
      reads this, entries
    {
      && count <= entries.Length && c != [] && Linked(entries[..count], head, c) && tail == c[|c| - 1]
      && (forall k | 0 <= k < |c| :: c[k] < count)
      && Ascending(Order(entries[..count], c))
    }

    /** Links one executed node back in where its new time belongs. */
    method InsertNode(node: nat, ghost c: seq<nat>) returns (ghost d: seq<nat>)
      requires Sorted(c) && node < count && node !in c
      modifies this`head, this`tail, entries
      ensures Sorted(d) && Inserted(old(entries[..count]), entries[..count], c, d, node)
    {
      hide Linked, LinkedAt, Ascending, Inserted, Order;
      var due := entries[node].task.due;
      if due >= entries[tail].task.due {
        d := AppendNode(node, c);
        return;
      }
      var previous, until, p := FindPlace(due, c);
      d := c[..p] + [node] + c[p..];
      LinkBefore(node, previous, until, c, p);
    }

    method SetLink(i: nat, next: int)
      requires i < count <= entries.Length
      modifies entries
      ensures entries[..count] == SetNext(old(entries[..count]), i, next)
    {
      entries[i] := entries[i].(next := next);
    }

    method AppendNode(node: nat, ghost c: seq<nat>) returns (ghost d: seq<nat>)
      requires Sorted(c) && node < count && node !in c && entries[node].task.due >= entries[tail].task.due
      modifies this`tail, entries
      ensures Sorted(d) && Inserted(old(entries[..count]), entries[..count], c, d, node)
    {
      hide Linked, LinkedAt, Ascending;
      ghost var es := entries[..count];
      AppendAscends(es, c, node);
      InsertLast(es, head, c, node);
      SetLink(tail, node);
      tail := node;
      SetLink(tail, -1);
      d := c + [node];
      SameOrder(es, entries[..count], d);
    }

    method LinkBefore(node: nat, previous: int, until: int, ghost c: seq<nat>, ghost p: nat)
      requires Sorted(c) && node < count && node !in c
      requires p < |c| && until == c[p] && previous == (if p == 0 then -1 else c[p - 1])
      requires forall k | 0 <= k < p :: DueOf(entries[..count], c, k) <= entries[node].task.due
      requires entries[node].task.due <= DueOf(entries[..count], c, p)
      modifies this`head, entries
      ensures Sorted(c[..p] + [node] + c[p..])
      ensures Inserted(old(entries[..count]), entries[..count], c, c[..p] + [node] + c[p..], node)
    {
      hide Linked, LinkedAt, Ascending;
      ghost var es, d := entries[..count], c[..p] + [node] + c[p..];
      InsertAscends(es, c, p, node);
      InsertBefore(es, head, c, p, node);
      if previous == -1 {
        head := node;
      } else {
        SetLink(previous, node);
      }
      SetLink(node, until);
      SameOrder(es, entries[..count], d);
      SplitMembers(c, p, node);
    }

    /** The first entry of the chain not due before `due`, and the one before it. */
    method FindPlace(due: int, ghost c: seq<nat>) returns (previous: int, until: int, ghost p: nat)
      requires Sorted(c) && due < entries[tail].task.due
      ensures p < |c| && until == c[p] && previous == (if p == 0 then -1 else c[p - 1])
      ensures forall k | 0 <= k < p :: DueOf(entries[..count], c, k) <= due
      ensures due <= DueOf(entries[..count], c, p)
    {
      hide Linked, LinkedAt, Ascending;
      ghost var es := entries[..count];
      HeadIs(es, head, c);
      previous, until, p := -1, head, 0;
      while until != -1 && due > entries[until].task.due
        invariant p <= |c| && until == At(c, p) && previous == (if p == 0 then -1 else c[p - 1])
        invariant forall k | 0 <= k < p :: DueOf(es, c, k) < due
        decreases |c| - p
      {
        NextIs(es, head, c, p);
        previous := until;
        until := entries[until].next;
        p := p + 1;
      }
      assert DueOf(es, c, |c| - 1) > due;
    }

    /** Detaches the first `k` nodes of the chain and links them back one by one. */
    method Splice(k: nat, current: int)
      requires Chained() && 0 < k < count && current == chain[k] && Ascending(Queue()[k..])
      modifies this`head, this`tail, this`chain, entries
      ensures Chained() && Ascending(Queue()) && Listed() == old(Listed())
    {
      hide Linked, LinkedAt, Ascending, Order, SameTasks, Waits, Covers, Inserted, Distinct;
      ghost var es, first := entries[..count], chain;
      InBounds(es, head, first);
      RestSorted(es, head, first, k);
      HeadIs(es, head, first);
      WaitsStart(es, first, k);
      var node := head;
      head := current;
      chain := InsertAll(k, node, es, old(head), first);
      WaitsEnd(es, entries[..count], first, chain, k);
      SameOrder(es, entries[..count], chain);
    }

    /** Links the nodes of the detached front back in, one by one. */
    method InsertAll(k: nat, front: int, ghost es: seq<Entry>, ghost was: int, ghost first: seq<nat>)
        returns (ghost c: seq<nat>)
      requires 0 < k < count == |first| && count <= entries.Length && es == entries[..count]
      requires Linked(es, was, first) && front == first[0]
      requires Sorted(first[k..]) && Waits(es, es, first, first[k..], 0, k)
      modifies this`head, this`tail, entries
      ensures |c| == count && Sorted(c) && SameTasks(es, entries[..count])
      ensures Waits(es, entries[..count], first, c, k, k)
    {
      hide Linked, LinkedAt, Order, SameTasks, Waits, Inserted, Distinct, Sorted;
      InBounds(es, was, first);
      var node := front;
      c := first[k..];
      SameSelf(es);
      var i := 0;
      while i < k
        invariant 0 <= i <= k && |c| == count - k + i && node == first[i] && Sorted(c)
        invariant SameTasks(es, entries[..count])
        invariant Waits(es, entries[..count], first, c, i, k)
      {
        NextIs(es, was, first, i);
        WaitsAt(es, entries[..count], first, c, i, k);
        var next := entries[node].next;
        ghost var before, fs := c, entries[..count];
        c := InsertNode(node, c);
        InsertedSame(fs, entries[..count], before, c, node);
        SameThrough(es, fs, entries[..count]);
        WaitsStep(es, fs, entries[..count], first, before, c, i, k);
        node := next;
        i := i + 1;
      }
    }

    /**
      One turn of the scheduling loop at time `now`, the continue flag staying set: runs the tasks
      that are due, and only those, in the order of the chain, then restores the order - by sorting
      anew when more than half of the tasks ran, by splicing otherwise.
     */
    method Pass(now: int, sort: seq<Task> -> seq<Task>) returns (ran: seq<Task>)
      requires Valid() && clock <= now && Qsort(sort)
      modifies this`head, this`tail, this`clock, this`chain, entries
      ensures Valid() && clock == now && Permutation(RunAll(old(Listed()), now), Listed())
      ensures |ran| <= |old(Queue())| && ran == old(Queue())[..|ran|]
      ensures forall k | 0 <= k < |old(Queue())| :: k < |ran| <==> old(Queue())[k].due <= now
    {
      hide Linked, LinkedAt, Ascending, Order, Permutation, RunAll, SortedBy, AllComparable, Bounded, Close, Covers;
      ghost var ts, q := RunAll(Listed(), now), Queue();
      PassBounds(Listed(), clock, now);
      LaterBounded(Listed(), clock, now);
      clock := now;
      var current;
      ran, current := Execute(now);
      DueFirst(q, |ran|, now);
      Reflexive(ts);
      var n := |ran|;
      if n == 0 || count == 1 {
        Settled(q, n, now);
        return;
      }
      if n > count / 2 {
        Rechain(sort);
      } else {
        Waiting(q, n, now);
        Splice(n, current);
      }
    }

    /**
      Turns of the scheduling loop at the given times, with no task added or deleted between them: every
      turn runs every task exactly when its time has come. `m` holds the tasks by id.
     */
    method Loop(times: seq<int>, sort: seq<Task> -> seq<Task>, ghost m: map<int, Task>) returns (rans: seq<seq<Task>>)
      requires Valid() && Qsort(sort) && Later([clock] + times) && IsMap(Listed(), m)
      modifies this`head, this`tail, this`clock, this`chain, entries
      ensures Valid() && |rans| == |times| && OnSchedule(m, times, rans)
      ensures exists now :: After(m, times, rans, now) && IsMap(Listed(), now)
    {
      hide Linked, LinkedAt, Ascending, Order, Permutation, RunAll, SortedBy, AllComparable, Bounded, Close, Covers,
        IsMap, OnSchedule, After, Qsort, UniqueIds;
      ghost var now, all := m, [clock] + times;
      rans := [];
      StartsOn(Listed(), m);
      while |rans| < |times|
        invariant |rans| <= |times| && Valid() && clock == all[|rans|]
        invariant OnSchedule(m, times[..|rans|], rans) && After(m, times[..|rans|], rans, now) && IsMap(Listed(), now)
      {
        var n := |rans|;
        ghost var ts, q := Listed(), Queue();
        assert clock <= times[n] by { assert all[n] <= all[n + 1] == times[n]; }
        OrderHolds(entries[..count], head, chain);
        UniqueOf(ts, now);
        var ran := Pass(times[n], sort);
        RanByMap(q, ts, now, ran, times[n]);
        PassKeeps(m, times[..n], rans, now, ran, times[n]);
        RunAllIsMap(ts, now, times[n]);
        PermutationIsMap(RunAll(ts, times[n]), Listed(), PassMap(now, times[n]));
        rans := rans + [ran];
        now := PassMap(now, times[n]);
        assert times[..n + 1] == times[..n] + [times[n]];
      }
      assert times[..|rans|] == times;
    }

    /** `sched_make_chain` on an array whose times can be compared. */
    method Rechain(sort: seq<Task> -> seq<Task>)
      requires count <= entries.Length && Qsort(sort)
      modifies this`head, this`tail, this`chain, entries
      ensures Chained() && Permutation(old(Listed()), Listed()) && Listed() == sort(old(Listed()))
      ensures Bounded(old(Listed()), clock) && Close(old(Listed())) ==> Valid()
    {
      hide Linked, LinkedAt, Ascending, Order, Permutation, SortedBy, AllComparable, Bounded, Close, Covers;
      ghost var ts := Listed();
      var sorted := sort(Tasks(entries[..count]));
      assert Permutation(ts, sorted) && (AllComparable(ts) ==> SortedBy(sorted));
      PermutationKeeps(ts, sorted);
      CloseExactly(ts);
      MakeChain(sorted);
      if Close(ts) {
        SortedAscends(sorted);
      }
    }

    /** Removes the first entry with an id by moving the later ones down. */
    method DeleteId(id: int) returns (found: bool)
      requires count <= entries.Length
      modifies this`count, entries
      ensures count <= entries.Length && Listed() == Deleted(old(Listed()), id)
      ensures found <==> Find(old(Listed()), id) < |old(Listed())|
      ensures !found ==> count == old(count) && entries[..] == old(entries[..])
    {
      ghost var ts := Listed();
      var i := FindId(id);
      found := i < count;
      if !found {
        return;
      }
      TasksWithout(entries[..count], i);
      ShiftDown(i);
      count := count - 1;
    }

    method ShiftDown(i: nat)
      requires i < count <= entries.Length
      modifies entries
      ensures var es := old(entries[..count]); entries[..count - 1] == es[..i] + es[i + 1..]
    {
      var j := i + 1;
      while j < count
        invariant i < j <= count
        invariant forall k | 0 <= k < i || j <= k < count :: entries[k] == old(entries[k])
        invariant forall k | i < k < j :: entries[k - 1] == old(entries[k])
      {
        entries[j - 1] := entries[j];
        j := j + 1;
      }
    }

    method FindId(id: int) returns (i: nat)
      requires count <= entries.Length
      ensures i == Find(Listed(), id)
    {
      i := 0;
      while i < count && entries[i].task.id != id
        invariant 0 <= i <= count && forall j | 0 <= j < i :: entries[j].task.id != id
      {
        i := i + 1;
      }
      FirstFound(Listed(), id, i);
    }

    method MakeRoom(extra: nat)
      requires count <= entries.Length
      modifies this`entries
      ensures fresh(entries) && entries.Length == count + extra && Listed() == old(Listed())
    {
      var larger := new Entry[count + extra](_ => Entry(Task(0, 0, 0), -1));
      forall i | 0 <= i < count {
        larger[i] := entries[i];
      }
      assert larger[..count] == entries[..count];
      entries := larger;
    }

    method Upsert(w: Task)
      requires count < entries.Length
      modifies this`count, entries
      ensures count <= old(count) + 1 && count <= entries.Length && Listed() == Upserted(old(Listed()), w)
    {
      hide Upserted;
      ghost var us := Listed();
      var i := FindId(w.id);
      UpsertedIs(us, w, i);
      entries[i] := Entry(w, -1);
      if i == count {
        count := count + 1;
      }
      assert Listed() == if i == |us| then us + [w] else us[i := w];
    }

    /** Takes the waiting entries into a new array: an entry with a known id replaces the old one. */
    method Receive(waiting: seq<Task>)
      requires count <= entries.Length
      modifies this`entries, this`count
      ensures count <= entries.Length && fresh(entries) && Listed() == UpsertedAll(old(Listed()), waiting)
    {
      hide Upserted, Tasks;
      ghost var ts := Listed();
      MakeRoom(|waiting|);
      var w := 0;
      while w < |waiting|
        invariant 0 <= w <= |waiting| && fresh(entries)
        invariant count + (|waiting| - w) <= entries.Length && Listed() == UpsertedAll(ts, waiting[..w])
      {
        Upsert(waiting[w]);
        assert waiting[..w + 1][..w] == waiting[..w];
        w := w + 1;
      }
      assert waiting[..w] == waiting;
    }

    /**
      `sched_check_waiting` at time `now`: applies a pending deletion and the waiting entries, then
      rebuilds the chain. `memory` says whether the new array can be allocated. The waiting entries
      are used up exactly if `taken`.
     */
    method CheckWaiting(now: int, delete: int, waiting: seq<Task>, memory: bool, sort: seq<Task> -> seq<Task>)
      returns (result: int, taken: bool)
      requires Valid() && clock <= now && Bounded(waiting, now) && Qsort(sort)
      modifies this, entries
      ensures clock == now && (taken <==> waiting != [] && memory)
      ensures result == ENOENT ==> Valid() && Listed() == old(Listed())
      ensures Chained() && (entries == old(entries) || fresh(entries))
      ensures var wanted := Wanted(old(Listed()), delete, if taken then waiting else []);
              Permutation(wanted, Listed()) && (Close(wanted) ==> Valid())
    {
      hide Linked, LinkedAt, Ascending, Order, Permutation, SortedBy, AllComparable, Bounded, Close, Covers, Deleted;
      ghost var ts := Listed();
      LaterBounded(ts, clock, now);
      WantedBounded(ts, delete, if memory then waiting else [], now);
      WantedBounded(ts, delete, [], now);
      WantedNothing(ts, delete);
      clock := now;
      var deleted := false;
      taken := false;
      if delete >= 0 {
        deleted := DeleteId(delete);
        NothingDeleted(ts, delete);
      }
      if waiting == [] || !memory {
        result := if waiting != [] then ENOMEM else if deleted then 0 else ENOENT;
        if deleted {
          Rechain(sort);
        } else {
          Reflexive(ts);
          assert entries[..count] == old(entries[..count]);
        }
        return;
      }
      Receive(waiting);
      Rechain(sort);
      result, taken := 0, true;
    }

    /** The start of `sched_thread_entrance`: first times for all tasks, unless an interval is not positive. */
    method Init(plans: seq<Plan>, now: int, sort: seq<Task> -> seq<Task>) returns (result: int)
      requires Qsort(sort)
      requires forall p | p in plans :: p.interval <= INT32_MAX && (p.base.Some? ==> p.base.value <= now)
      modifies this
      ensures result == if exists p | p in plans :: p.interval <= 0 then EINVAL else 0
      ensures result == 0 ==>
                && fresh(entries) && Valid() && clock == now
                && AllStartable(plans, now) && Permutation(StartedAll(plans, now), Listed())
    {
      hide Linked, LinkedAt, Ascending, Order, Permutation, SortedBy, AllComparable, Bounded, Close, Covers, Started, Qsort;
      var fresh0 := new Entry[|plans|](_ => Entry(Task(0, 0, 0), -1));
      var i := 0;
      while i < |plans|
        invariant 0 <= i <= |plans|
        invariant forall j | 0 <= j < i :: Startable(plans[j], now) && fresh0[j].task == Started(plans[j], now)
      {
        assert plans[i] in plans;
        if plans[i].interval <= 0 {
          return EINVAL;
        }
        fresh0[i] := Entry(Started(plans[i], now), -1);
        i := i + 1;
      }
      entries, count, clock := fresh0, |plans|, now;
      assert Listed() == StartedAll(plans, now);
      StartedBounds(plans, now);
      Rechain(sort);
      result := 0;
    }
  }

  /** The entries after a deletion and the waiting ones. */
  function Wanted(ts: seq<Task>, delete: int, waiting: seq<Task>): seq<Task> {
    UpsertedAll(if delete >= 0 then Deleted(ts, delete) else ts, waiting)
  }

  lemma WantedNothing(ts: seq<Task>, delete: int)
    ensures Wanted(ts, delete, []) == if delete >= 0 then Deleted(ts, delete) else ts
  {
  }

  lemma {:induction false} WantedBounded(ts: seq<Task>, delete: int, waiting: seq<Task>, clock: int)
    requires Bounded(ts, clock) && Bounded(waiting, clock)
    ensures Bounded(Wanted(ts, delete, waiting), clock)
    decreases |waiting|
  {
    if waiting != [] {
      var front, last := waiting[..|waiting| - 1], waiting[|waiting| - 1];
      assert last in waiting;
      WantedBounded(ts, delete, front, clock);
      var us := Wanted(ts, delete, front);
      assert forall t | t in Upserted(us, last) :: t in us || t == last;
    } else {
      assert forall t | t in Deleted(ts, delete) :: t in ts;
    }
  }

  /** Nothing is wanted but what was there or is waiting. */
  lemma {:induction false} WantedFrom(ts: seq<Task>, delete: int, waiting: seq<Task>)
    ensures forall t | t in Wanted(ts, delete, waiting) :: t in ts || t in waiting
    decreases |waiting|
  {
    if waiting != [] {
      var front, last := waiting[..|waiting| - 1], waiting[|waiting| - 1];
      WantedFrom(ts, delete, front);
      assert forall t | t in Upserted(Wanted(ts, delete, front), last) :: t in Wanted(ts, delete, front) || t == last;
    } else {
      assert forall t | t in Deleted(ts, delete) :: t in ts;
    }
  }

  /** If no task is late by more than `late`, new ones due less than 2^31 - late from now keep the order sound. */
  lemma LateEnough(ts: seq<Task>, delete: int, waiting: seq<Task>, now: int, late: nat)
    requires Close(ts) && Bounded(ts, now) && forall t | t in ts :: t.due >= now - late
    requires forall w | w in waiting :: now <= w.due < now + 0x8000_0000 - late
    ensures Close(Wanted(ts, delete, waiting))
  {
    WantedFrom(ts, delete, waiting);
  }

  lemma LaterBounded(ts: seq<Task>, before: int, now: int)
    requires Bounded(ts, before) && before <= now
    ensures Bounded(ts, now)
  {
  }

  /** In terms of a map from ids to tasks: a removal, then updates, in whatever order the array ends up. */
  lemma WantedIsMap(ts: seq<Task>, m: map<int, Task>, delete: int, waiting: seq<Task>, us: seq<Task>)
    requires IsMap(ts, m) && Permutation(Wanted(ts, delete, waiting), us)
    ensures IsMap(us, UpdateAll(if delete >= 0 then m - {delete} else m, waiting))
  {
    hide IsMap, Deleted, Permutation;
    if delete >= 0 {
      DeletedIsRemoval(ts, m, delete);
      UpsertedAllIsUpdate(Deleted(ts, delete), m - {delete}, waiting);
    } else {
      UpsertedAllIsUpdate(ts, m, waiting);
    }
    PermutationIsMap(Wanted(ts, delete, waiting), us, UpdateAll(if delete >= 0 then m - {delete} else m, waiting));
  }
}
