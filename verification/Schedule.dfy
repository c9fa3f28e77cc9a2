/** Scheduled tasks and chains of them through an array, as values. */
module Schedule {
  import opened Bytes
  import opened Division

  /** A task: when it is due next, and how often it runs. */
  datatype Task = Task(id: int, interval: int, due: int)

  /** An array entry: a task and the index of the next entry in the chain, or -1. */
  datatype Entry = Entry(task: Task, next: int)

  /** What running a task at `now` does to it. */
  function Run(t: Task, now: int): Task { t.(due := now + t.interval) }

  /** Running the tasks that are due. */
  function RunDue(t: Task, now: int): Task { if t.due <= now then Run(t, now) else t }

  function RunAll(ts: seq<Task>, now: int): seq<Task> {
    seq(|ts|, i requires 0 <= i < |ts| => RunDue(ts[i], now))
  }

  function Tasks(es: seq<Entry>): seq<Task> {
    seq(|es|, i requires 0 <= i < |es| => es[i].task)
  }

  ghost predicate Ascending(ts: seq<Task>) { forall i, j | 0 <= i < j < |ts| :: ts[i].due <= ts[j].due }

  /** The comparison function: a time difference cut to 32 bits. */
  function Compare(a: Task, b: Task): int { ToInt32(a.due - b.due) }

  /** What `qsort` promises of its result: no element compares above a later one. */
  ghost predicate SortedBy(ts: seq<Task>) { forall i, j | 0 <= i < j < |ts| :: Compare(ts[i], ts[j]) <= 0 }

  /** Times whose difference survives the cut. */
  predicate Comparable(a: int, b: int) {
    var d := if a >= b then a - b else b - a;
    d == 0 || 0 < d % 0x1_0000_0000 < 0x8000_0000
  }

  /** The comparison orders two tasks by time, both ways round, exactly if their times are comparable. */
  lemma CompareExactly(a: Task, b: Task)
    ensures Comparable(a.due, b.due) <==>
      && (Compare(a, b) <= 0 <==> a.due <= b.due)
      && (Compare(b, a) <= 0 <==> b.due <= a.due)
  {
  }

  ghost predicate AllComparable(ts: seq<Task>) {
    forall a, b | a in ts && b in ts :: Comparable(a.due, b.due)
  }

  /** No two times are 2^31 seconds or more apart. */
  ghost predicate Close(ts: seq<Task>) {
    forall a, b | a in ts && b in ts :: a.due - b.due < 0x8000_0000
  }

  /** Intervals are 32-bit numbers, and no task is due later than its interval from the clock. */
  ghost predicate Bounded(ts: seq<Task>, clock: int) {
    forall t | t in ts :: 0 < t.interval <= INT32_MAX && t.due <= clock + INT32_MAX
  }

  ghost predicate Permutation(ts: seq<Task>, us: seq<Task>) { multiset(ts) == multiset(us) }

  /** What is assumed of `qsort`: it permutes, and it sorts whatever the comparison orders. */
  ghost predicate Qsort(sort: seq<Task> -> seq<Task>) {
    forall ts :: Permutation(ts, sort(ts)) && (AllComparable(ts) ==> SortedBy(sort(ts)))
  }

  /** Times less than 2^31 seconds apart are comparable, and within 2^32 seconds only those. */
  lemma CloseExactly(ts: seq<Task>)
    ensures Close(ts) ==> AllComparable(ts)
    ensures (forall a, b | a in ts && b in ts :: a.due - b.due < 0x1_0000_0000) ==> (Close(ts) <==> AllComparable(ts))
  {
    if (forall a, b | a in ts && b in ts :: a.due - b.due < 0x1_0000_0000) && AllComparable(ts) {
      forall a, b | a in ts && b in ts ensures a.due - b.due < 0x8000_0000 {
        assert Comparable(a.due, b.due);
      }
    }
  }

  /** After a pass all times lie within one interval of the clock, so they can be compared. */
  lemma PassBounds(ts: seq<Task>, before: int, now: int)
    requires Bounded(ts, before) && before <= now
    ensures Bounded(RunAll(ts, now), now) && Close(RunAll(ts, now))
  {
    var us := RunAll(ts, now);
    forall u | u in us ensures 0 < u.interval <= INT32_MAX && now < u.due <= now + INT32_MAX {
      var i :| 0 <= i < |us| && us[i] == u;
      assert ts[i] in ts;
    }
  }

  /**
    A task that is late by `late` seconds and a new one with an interval: every way to sort the two
    puts the late one first, if and only if lateness and interval together stay below 2^31.
   */
  lemma LateExactly(a: Task, b: Task, clock: int, late: nat)
    requires a.due == clock - late && b.due == clock + b.interval && 0 < b.interval <= INT32_MAX && late < 0x8000_0000
    ensures (forall us :: Permutation([a, b], us) && SortedBy(us) ==> Ascending(us))
       <==> late + b.interval < 0x8000_0000
  {
    var us := [b, a];
    assert Permutation([a, b], us);
    if late + b.interval < 0x8000_0000 {
      assert Close([a, b]);
      forall us | Permutation([a, b], us) && SortedBy(us) ensures Ascending(us) {
        PermutationKeeps([a, b], us);
        CloseExactly(us);
        SortedAscends(us);
      }
    } else {
      assert Compare(b, a) <= 0;
      assert SortedBy(us);
      assert us[0].due > us[1].due && !Ascending(us);
    }
  }

  /** Two seconds late, and an interval of 2^31 - 1: the new task goes in front of the overdue one. */
  lemma LateMisordered(a: Task, b: Task, us: seq<Task>)
    requires b.interval == INT32_MAX && b.due == a.due + 2 + b.interval
    requires Permutation([a, b], us) && SortedBy(us)
    ensures us == [b, a] && !Ascending(us)
  {
    hide Permutation;
    TwoWays(a, b, us);
    assert SortedBy([a, b]) ==> Compare([a, b][0], [a, b][1]) <= 0;
    assert [b, a][0].due > [b, a][1].due;
  }

  lemma TwoWays(a: Task, b: Task, us: seq<Task>)
    requires Permutation([a, b], us)
    ensures us == [a, b] || us == [b, a]
  {
    PermutationKeeps([a, b], us);
    var x, y := us[0], us[1];
    assert us == [x, y];
    assert multiset{x, y} == multiset{a, b};
    assert x in multiset{a, b} && multiset{x, y} - multiset{x} == multiset{y};
    assert x == a ==> multiset{a, b} - multiset{x} == multiset{b};
    assert x == b ==> multiset{a, b} - multiset{x} == multiset{a};
    assert y in multiset{y};
  }

  lemma PermutationKeeps(ts: seq<Task>, us: seq<Task>)
    requires Permutation(ts, us)
    ensures |ts| == |us| && (AllComparable(ts) <==> AllComparable(us)) && (Close(ts) <==> Close(us))
    ensures forall clock :: Bounded(ts, clock) <==> Bounded(us, clock)
  {
    assert |ts| == |multiset(ts)| && |us| == |multiset(us)|;
    forall t ensures t in ts <==> t in us {
      assert t in ts <==> t in multiset(ts);
      assert t in us <==> t in multiset(us);
    }
  }

  lemma SortedAscends(ts: seq<Task>)
    requires SortedBy(ts) && AllComparable(ts)
    ensures Ascending(ts)
  {
    forall i, j | 0 <= i < j < |ts| ensures ts[i].due <= ts[j].due {
      assert Compare(ts[i], ts[j]) <= 0;
      CompareExactly(ts[i], ts[j]);
    }
  }

  // ---------- when the order is promised ----------

  function DueInsert(ts: seq<Task>, t: Task): seq<Task>
    decreases |ts|
  {
    if ts == [] || t.due <= ts[0].due then [t] + ts else [ts[0]] + DueInsert(ts[1..], t)
  }

  /** One way to sort: by the due times themselves. */
  function DueSort(ts: seq<Task>): seq<Task>
    decreases |ts|
  {
    if ts == [] then [] else DueInsert(DueSort(ts[1..]), ts[0])
  }

  lemma {:induction false} DueInsertElements(ts: seq<Task>, t: Task)
    ensures multiset(DueInsert(ts, t)) == multiset(ts) + multiset{t}
    decreases |ts|
  {
    if ts != [] && t.due > ts[0].due {
      DueInsertElements(ts[1..], t);
      assert ts == [ts[0]] + ts[1..];
    }
  }

  lemma DueInsertMember(ts: seq<Task>, t: Task, j: nat)
    requires j < |DueInsert(ts, t)|
    ensures DueInsert(ts, t)[j] == t || DueInsert(ts, t)[j] in ts
  {
    DueInsertElements(ts, t);
    assert DueInsert(ts, t)[j] in multiset(DueInsert(ts, t));
  }

  lemma {:induction false} DueInsertAscends(ts: seq<Task>, t: Task)
    requires Ascending(ts)
    ensures Ascending(DueInsert(ts, t))
    decreases |ts|
  {
    if ts != [] && t.due > ts[0].due {
      var rest := DueInsert(ts[1..], t);
      DueInsertAscends(ts[1..], t);
      forall j | 0 <= j < |rest| ensures ts[0].due <= rest[j].due {
        DueInsertMember(ts[1..], t, j);
      }
    }
  }

  lemma {:induction false} DueSortAscends(ts: seq<Task>)
    ensures Ascending(DueSort(ts)) && Permutation(ts, DueSort(ts))
    decreases |ts|
  {
    if ts != [] {
      DueSortAscends(ts[1..]);
      DueInsertAscends(DueSort(ts[1..]), ts[0]);
      DueInsertElements(DueSort(ts[1..]), ts[0]);
      assert ts == [ts[0]] + ts[1..];
    }
  }

  /** The latest task first, the others in order. */
  function LatestFirst(ts: seq<Task>): seq<Task> {
    var s := DueSort(ts);
    if s == [] then [] else [s[|s| - 1]] + s[..|s| - 1]
  }

  lemma LatestPermutes(ts: seq<Task>)
    ensures Permutation(ts, LatestFirst(ts))
  {
    hide DueSort, Ascending;
    DueSortAscends(ts);
    var s := DueSort(ts);
    if s != [] {
      assert s == s[..|s| - 1] + [s[|s| - 1]];
    }
  }

  lemma AscendingEnds(s: seq<Task>, t: Task)
    requires Ascending(s) && t in s
    ensures s[0].due <= t.due <= s[|s| - 1].due
  {
    var i :| 0 <= i < |s| && s[i] == t;
    assert i > 0 ==> s[0].due <= s[i].due;
    assert i < |s| - 1 ==> s[i].due <= s[|s| - 1].due;
  }

  lemma LatestMisplaced(ts: seq<Task>, a: Task, b: Task)
    requires a in ts && b in ts && a.due < b.due
    ensures !Ascending(LatestFirst(ts))
  {
    hide DueSort;
    DueSortAscends(ts);
    var s := DueSort(ts);
    assert a in multiset(s) && b in multiset(s);
    hide Permutation;
    AscendingEnds(s, a);
    AscendingEnds(s, b);
    var u := LatestFirst(ts);
    assert u[0] == s[|s| - 1] && u[1] == s[0];
  }

  /** A sort for this list that does not promise an order, and keeps to what is promised for others. */
  ghost function SortBut(ts: seq<Task>): seq<Task> -> seq<Task> {
    xs => if xs == ts then LatestFirst(xs) else DueSort(xs)
  }

  lemma AscendingSorts(ts: seq<Task>)
    requires Ascending(ts) && AllComparable(ts)
    ensures SortedBy(ts)
  {
    forall i, j | 0 <= i < j < |ts| ensures Compare(ts[i], ts[j]) <= 0 {
      assert ts[i] in ts && ts[j] in ts;
      CompareExactly(ts[i], ts[j]);
    }
  }

  lemma SortButIsQsort(ts: seq<Task>, a: Task, b: Task)
    requires a in ts && b in ts && a.due < b.due && !AllComparable(ts)
    ensures Qsort(SortBut(ts)) && !Ascending(SortBut(ts)(ts))
  {
    hide Compare, Comparable;
    LatestMisplaced(ts, a, b);
    LatestPermutes(ts);
    var sort := SortBut(ts);
    forall xs: seq<Task> ensures Permutation(xs, sort(xs)) && (AllComparable(xs) ==> SortedBy(sort(xs))) {
      DueSortAscends(xs);
      if xs != ts && AllComparable(xs) {
        PermutationKeeps(xs, sort(xs));
        AscendingSorts(sort(xs));
      }
    }
  }

  /** Whatever sort the library has, it puts a list in order of time if and only if all its times compare. */
  lemma OrderExactly(ts: seq<Task>)
    ensures (forall sort | Qsort(sort) :: Ascending(sort(ts))) <==> AllComparable(ts)
  {
    hide Comparable, Qsort, SortBut;
    if AllComparable(ts) {
      forall sort | Qsort(sort) ensures Ascending(sort(ts)) {
        QsortOrders(sort, ts);
      }
    } else {
      var a, b :| a in ts && b in ts && !Comparable(a.due, b.due);
      Incomparable(a, b);
      SortButIsQsort(ts, if a.due < b.due then a else b, if a.due < b.due then b else a);
    }
  }

  lemma Incomparable(a: Task, b: Task)
    requires !Comparable(a.due, b.due)
    ensures a.due != b.due
  {
  }

  lemma QsortOrders(sort: seq<Task> -> seq<Task>, ts: seq<Task>)
    requires Qsort(sort) && AllComparable(ts)
    ensures Ascending(sort(ts))
  {
    hide Compare, Comparable;
    PermutationKeeps(ts, sort(ts));
    SortedAscends(sort(ts));
  }

  ghost function At(c: seq<nat>, k: nat): int { if k < |c| then c[k] else -1 }

  ghost predicate LinkedAt(es: seq<Entry>, c: seq<nat>, k: nat)
    requires k < |c|
  {
    c[k] < |es| && es[c[k]].next == At(c, k + 1)
  }

  ghost predicate Distinct(c: seq<nat>) { forall i, j | 0 <= i < j < |c| :: c[i] != c[j] }

  /** `c` lists the indices of the chain from `head`, ended by -1. */
  ghost predicate Linked(es: seq<Entry>, head: int, c: seq<nat>) {
    head == At(c, 0) && Distinct(c) && forall k | 0 <= k < |c| :: LinkedAt(es, c, k)
  }

  /** The tasks of a chain, in its order. */
  ghost function Order(es: seq<Entry>, c: seq<nat>): seq<Task>
    requires forall k | 0 <= k < |c| :: c[k] < |es|
  {
    seq(|c|, k requires 0 <= k < |c| => es[c[k]].task)
  }

  lemma InBounds(es: seq<Entry>, head: int, c: seq<nat>)
    requires Linked(es, head, c)
    ensures Distinct(c) && forall k | 0 <= k < |c| :: c[k] < |es|
  {
    forall k | 0 <= k < |c| ensures c[k] < |es| {
      assert LinkedAt(es, c, k);
    }
  }

  /** Entries outside a chain may change, and tasks inside, as long as the chain's links stay. */
  lemma StillLinked(es: seq<Entry>, fs: seq<Entry>, head: int, c: seq<nat>)
    requires Linked(es, head, c) && |es| == |fs|
    requires forall k | 0 <= k < |c| && c[k] < |es| :: fs[c[k]].next == es[c[k]].next
    ensures Linked(fs, head, c)
  {
    forall k | 0 <= k < |c| ensures LinkedAt(fs, c, k) {
      assert LinkedAt(es, c, k);
    }
  }

  function SetNext(es: seq<Entry>, i: nat, next: int): seq<Entry>
    requires i < |es|
  {
    es[i := es[i].(next := next)]
  }

  /** A node put between two others, or in front. */
  lemma InsertBefore(es: seq<Entry>, head: int, c: seq<nat>, p: nat, node: nat)
    requires Linked(es, head, c) && p < |c| && node < |es| && node !in c
    requires forall k | 0 <= k < |c| :: c[k] < |es|
    ensures var d := c[..p] + [node] + c[p..];
            var fs := SetNext(if p == 0 then es else SetNext(es, c[p - 1], node), node, c[p]);
            Linked(fs, if p == 0 then node else head, d)
  {
    var d := c[..p] + [node] + c[p..];
    var fs := SetNext(if p == 0 then es else SetNext(es, c[p - 1], node), node, c[p]);
    InsertDistinct(c, p, node);
    forall k | 0 <= k < |d| ensures LinkedAt(fs, d, k) {
      if k < p {
        assert d[k] == c[k] && LinkedAt(es, c, k);
      } else if k > p {
        assert d[k] == c[k - 1] && LinkedAt(es, c, k - 1);
      }
    }
  }

  lemma InsertDistinct(c: seq<nat>, p: nat, node: nat)
    requires Distinct(c) && p <= |c| && node !in c
    ensures Distinct(c[..p] + [node] + c[p..])
  {
  }

  /** A node put at the end. */
  lemma InsertLast(es: seq<Entry>, head: int, c: seq<nat>, node: nat)
    requires Linked(es, head, c) && c != [] && node < |es| && node !in c
    requires forall k | 0 <= k < |c| :: c[k] < |es|
    ensures var fs := SetNext(SetNext(es, c[|c| - 1], node), node, -1);
            Linked(fs, head, c + [node])
  {
    var d, fs := c + [node], SetNext(SetNext(es, c[|c| - 1], node), node, -1);
    InsertDistinct(c, |c|, node);
    assert d == c[..|c|] + [node] + c[|c|..];
    forall k | 0 <= k < |d| ensures LinkedAt(fs, d, k) {
      if k < |c| {
        assert d[k] == c[k] && LinkedAt(es, c, k);
      }
    }
  }

  /** Every entry is in the chain. */
  ghost predicate Covers(c: seq<nat>, n: nat) { forall i | 0 <= i < n :: i in c }

  /** The entries after the first `k` of the chain have run. */
  ghost predicate RanTo(es: seq<Entry>, fs: seq<Entry>, c: seq<nat>, k: nat, now: int)
    requires k <= |c| && forall j | 0 <= j < |c| :: c[j] < |es|
  {
    && |fs| == |es|
    && (forall i | 0 <= i < |es| :: fs[i].next == es[i].next)
    && (forall j | 0 <= j < k :: fs[c[j]].task == Run(es[c[j]].task, now))
    && (forall j | k <= j < |c| :: fs[c[j]].task == es[c[j]].task)
  }

  lemma HeadIs(es: seq<Entry>, head: int, c: seq<nat>)
    requires Linked(es, head, c)
    ensures head == At(c, 0) && Distinct(c)
  {
  }

  lemma RanNone(es: seq<Entry>, c: seq<nat>, now: int)
    requires forall j | 0 <= j < |c| :: c[j] < |es|
    ensures RanTo(es, es, c, 0, now)
  {
  }

  lemma RanAt(es: seq<Entry>, fs: seq<Entry>, head: int, c: seq<nat>, k: nat, now: int)
    requires Linked(es, head, c) && k <= |c| && forall j | 0 <= j < |c| :: c[j] < |es|
    requires RanTo(es, fs, c, k, now)
    ensures Linked(fs, head, c) && |fs| == |es|
    ensures k < |c| ==> fs[c[k]].task == es[c[k]].task && fs[c[k]].next == At(c, k + 1)
  {
    StillLinked(es, fs, head, c);
    if k < |c| {
      assert LinkedAt(fs, c, k);
    }
  }

  lemma RanOne(es: seq<Entry>, fs: seq<Entry>, c: seq<nat>, k: nat, now: int)
    requires k < |c| && Distinct(c) && forall j | 0 <= j < |c| :: c[j] < |es|
    requires RanTo(es, fs, c, k, now)
    ensures RanTo(es, fs[c[k] := fs[c[k]].(task := Run(fs[c[k]].task, now))], c, k + 1, now)
  {
  }

  /** On a sorted chain, running while tasks are due runs exactly the due tasks. */
  lemma RanAll(es: seq<Entry>, fs: seq<Entry>, c: seq<nat>, k: nat, now: int)
    requires k <= |c| && Covers(c, |es|) && forall j | 0 <= j < |c| :: c[j] < |es|
    requires RanTo(es, fs, c, k, now) && Ascending(Order(es, c))
    requires forall j | 0 <= j < k :: Order(es, c)[j].due <= now
    requires k < |c| ==> Order(es, c)[k].due > now
    ensures Order(fs, c) == RunAll(Order(es, c), now) && Tasks(fs) == RunAll(Tasks(es), now)
  {
    var o := Order(es, c);
    forall j | 0 <= j < |c| ensures fs[c[j]].task == RunDue(es[c[j]].task, now) {
      assert o[j] == es[c[j]].task;
      if j > k {
        assert o[k].due <= o[j].due;
      }
    }
    forall i | 0 <= i < |es| ensures fs[i].task == RunDue(es[i].task, now) {
      assert i in c;
      var j :| 0 <= j < |c| && c[j] == i;
    }
  }

  ghost function DueOf(es: seq<Entry>, c: seq<nat>, k: nat): int
    requires k < |c| && c[k] < |es|
  {
    es[c[k]].task.due
  }

  /** Putting a node where its time belongs keeps the chain sorted. */
  lemma InsertAscends(es: seq<Entry>, c: seq<nat>, p: nat, node: nat)
    requires p <= |c| && node < |es| && forall k | 0 <= k < |c| :: c[k] < |es|
    requires Ascending(Order(es, c))
    requires forall k | 0 <= k < p :: DueOf(es, c, k) <= es[node].task.due
    requires p < |c| ==> es[node].task.due <= DueOf(es, c, p)
    ensures var d := c[..p] + [node] + c[p..];
            (forall k | 0 <= k < |d| :: d[k] < |es|) && Ascending(Order(es, d))
  {
    var d := c[..p] + [node] + c[p..];
    var o, u := Order(es, c), Order(es, d);
    assert forall k | 0 <= k < |c| :: o[k].due == DueOf(es, c, k);
    forall i, j | 0 <= i < j < |d| ensures u[i].due <= u[j].due {
      if i < p {
        assert u[i] == o[i];
        if j > p {
          assert u[j] == o[j - 1];
        } else if j < p {
          assert u[j] == o[j];
        }
      } else {
        assert u[j] == o[j - 1];
        if i > p {
          assert u[i] == o[i - 1];
        } else if j - 1 > p {
          assert o[p].due <= o[j - 1].due;
        }
      }
    }
  }

  /** Only the links differ. */
  ghost predicate SameTasks(es: seq<Entry>, fs: seq<Entry>) {
    |es| == |fs| && forall i | 0 <= i < |es| :: es[i].task == fs[i].task
  }

  lemma SameOrder(es: seq<Entry>, fs: seq<Entry>, c: seq<nat>)
    requires SameTasks(es, fs) && forall k | 0 <= k < |c| :: c[k] < |es|
    ensures Order(es, c) == Order(fs, c) && Tasks(es) == Tasks(fs)
  {
  }

  lemma AppendAscends(es: seq<Entry>, c: seq<nat>, node: nat)
    requires c != [] && node < |es| && forall k | 0 <= k < |c| :: c[k] < |es|
    requires Ascending(Order(es, c)) && DueOf(es, c, |c| - 1) <= es[node].task.due
    ensures (forall k | 0 <= k < |c + [node]| :: (c + [node])[k] < |es|) && Ascending(Order(es, c + [node]))
  {
    var o := Order(es, c);
    forall k | 0 <= k < |c| ensures DueOf(es, c, k) <= es[node].task.due {
      assert o[k].due <= o[|c| - 1].due;
    }
    InsertAscends(es, c, |c|, node);
    assert c + [node] == c[..|c|] + [node] + c[|c|..];
  }

  lemma NextIs(es: seq<Entry>, head: int, c: seq<nat>, k: nat)
    requires Linked(es, head, c) && k < |c|
    ensures c[k] < |es| && es[c[k]].next == At(c, k + 1)
  {
    assert LinkedAt(es, c, k);
  }

  /** Position of the first task with an id, or the length. */
  function Find(ts: seq<Task>, id: int): (i: nat)
    ensures i <= |ts| && (i < |ts| ==> ts[i].id == id) && forall j | 0 <= j < i :: ts[j].id != id
    decreases |ts|
  {
    if ts == [] || ts[0].id == id then 0 else 1 + Find(ts[1..], id)
  }

  function Deleted(ts: seq<Task>, id: int): seq<Task> {
    var i := Find(ts, id);
    if i == |ts| then ts else ts[..i] + ts[i + 1..]
  }

  function Upserted(ts: seq<Task>, w: Task): seq<Task> {
    var i := Find(ts, w.id);
    if i == |ts| then ts + [w] else ts[i := w]
  }

  function UpsertedAll(ts: seq<Task>, ws: seq<Task>): seq<Task>
    decreases |ws|
  {
    if ws == [] then ts else Upserted(UpsertedAll(ts, ws[..|ws| - 1]), ws[|ws| - 1])
  }

  /** The reference: tasks by id. */
  ghost predicate UniqueIds(ts: seq<Task>) { forall i, j | 0 <= i < j < |ts| :: ts[i].id != ts[j].id }

  ghost predicate IsMap(ts: seq<Task>, m: map<int, Task>) {
    && UniqueIds(ts)
    && (forall t | t in ts :: t.id in m && m[t.id] == t)
    && (forall id | id in m :: m[id].id == id && m[id] in ts)
  }

  lemma TasksWithout(es: seq<Entry>, i: nat)
    requires i < |es|
    ensures Tasks(es[..i] + es[i + 1..]) == Tasks(es)[..i] + Tasks(es)[i + 1..]
  {
  }

  lemma DeletedIsRemoval(ts: seq<Task>, m: map<int, Task>, id: int)
    requires IsMap(ts, m)
    ensures IsMap(Deleted(ts, id), m - {id})
  {
  }

  lemma UpsertedIsUpdate(ts: seq<Task>, m: map<int, Task>, w: Task)
    requires IsMap(ts, m)
    ensures IsMap(Upserted(ts, w), m[w.id := w])
  {
    var i, us := Find(ts, w.id), Upserted(ts, w);
    assert us[i] == w;
    forall j | 0 <= j < |us| && j != i ensures us[j] == ts[j] && us[j] in ts && us[j].id != w.id {
    }
    forall k | k in m && k != w.id ensures m[k] in us {
      var j :| 0 <= j < |ts| && ts[j] == m[k];
      assert us[j] == m[k];
    }
  }

  function UpdateAll(m: map<int, Task>, ws: seq<Task>): map<int, Task>
    decreases |ws|
  {
    if ws == [] then m else UpdateAll(m, ws[..|ws| - 1])[ws[|ws| - 1].id := ws[|ws| - 1]]
  }

  lemma {:induction false} UpsertedAllIsUpdate(ts: seq<Task>, m: map<int, Task>, ws: seq<Task>)
    requires IsMap(ts, m)
    ensures IsMap(UpsertedAll(ts, ws), UpdateAll(m, ws))
    decreases |ws|
  {
    hide IsMap, Upserted;
    if ws != [] {
      var front, last := ws[..|ws| - 1], ws[|ws| - 1];
      UpsertedAllIsUpdate(ts, m, front);
      UpsertedIsUpdate(UpsertedAll(ts, front), UpdateAll(m, front), last);
    }
  }

  /** The order of the array does not matter to the reference. */
  lemma PermutationIsMap(ts: seq<Task>, us: seq<Task>, m: map<int, Task>)
    requires IsMap(ts, m) && Permutation(ts, us)
    ensures IsMap(us, m)
  {
    forall t ensures t in ts <==> t in us {
      assert t in ts <==> t in multiset(ts);
      assert t in us <==> t in multiset(us);
    }
    forall i, j | 0 <= i < j < |us| ensures us[i].id != us[j].id {
      if us[i].id == us[j].id {
        assert us[i] in us && us[j] in us;
        assert us[i] == us[j];
        Twice(us, i, j);
        Once(ts, us[i]);
      }
    }
  }

  lemma Twice(us: seq<Task>, i: nat, j: nat)
    requires i < j < |us| && us[i] == us[j]
    ensures multiset(us)[us[i]] >= 2
  {
    var t := us[i];
    assert us == us[..i] + [t] + us[i + 1..j] + [t] + us[j + 1..];
  }

  lemma {:induction false} Once(ts: seq<Task>, t: Task)
    requires UniqueIds(ts)
    ensures multiset(ts)[t] <= 1
    decreases |ts|
  {
    if ts != [] {
      var front, last := ts[..|ts| - 1], ts[|ts| - 1];
      Once(front, t);
      assert ts == front + [last];
      if t == last {
        assert t !in front;
      }
    }
  }

  /** The part of a chain from position `k` on is a chain, and its tasks are the rest of the tasks. */
  lemma RestSorted(es: seq<Entry>, head: int, c: seq<nat>, k: nat)
    requires Linked(es, head, c) && k < |c| && forall j | 0 <= j < |c| :: c[j] < |es|
    ensures Linked(es, c[k], c[k..]) && Order(es, c[k..]) == Order(es, c)[k..]
    ensures forall j | 0 <= j < k :: c[j] !in c[k..]
    ensures forall j | k <= j < |c| :: c[j] in c[k..]
  {
    var d := c[k..];
    forall j | 0 <= j < |d| ensures LinkedAt(es, d, j) {
      assert LinkedAt(es, c, k + j);
    }
    forall j | k <= j < |c| ensures c[j] in d {
      assert d[j - k] == c[j];
    }
  }

  lemma SameSelf(es: seq<Entry>)
    ensures SameTasks(es, es)
  {
  }

  lemma SameThrough(es: seq<Entry>, fs: seq<Entry>, gs: seq<Entry>)
    requires SameTasks(es, fs) && SameTasks(fs, gs)
    ensures SameTasks(es, gs)
  {
  }

  /** The nodes from `i` to `k` are still to be linked back; the others are in the chain `c`. */
  ghost predicate Waits(es: seq<Entry>, fs: seq<Entry>, first: seq<nat>, c: seq<nat>, i: nat, k: nat) {
    && |fs| == |es| && i <= k <= |first|
    && (forall j | i <= j < k :: first[j] < |es| && first[j] !in c && fs[first[j]] == es[first[j]])
    && (forall j | 0 <= j < i || k <= j < |first| :: first[j] in c)
  }

  /** A node has been linked into a chain, and no entry outside of it has changed. */
  ghost predicate Inserted(es: seq<Entry>, fs: seq<Entry>, c: seq<nat>, d: seq<nat>, node: nat) {
    && SameTasks(es, fs) && |d| == |c| + 1
    && (forall x :: x in d <==> x == node || x in c)
    && (forall i | 0 <= i < |es| && i != node && i !in c :: fs[i] == es[i])
  }

  lemma InsertedSame(es: seq<Entry>, fs: seq<Entry>, c: seq<nat>, d: seq<nat>, node: nat)
    requires Inserted(es, fs, c, d, node)
    ensures SameTasks(es, fs) && |d| == |c| + 1
  {
  }

  lemma SplitMembers(c: seq<nat>, p: nat, node: nat)
    requires p <= |c|
    ensures forall x :: x in c[..p] + [node] + c[p..] <==> x == node || x in c
  {
    assert c == c[..p] + c[p..];
  }

  /** Neighbours linked in array order. */
  ghost predicate Straight(es: seq<Entry>, sorted: seq<Task>) {
    && |es| == |sorted| > 0 && (forall j | 0 <= j < |es| :: es[j].task == sorted[j])
    && (forall j | 0 <= j < |es| - 1 :: es[j].next == j + 1) && es[|es| - 1].next == -1
  }

  lemma StraightIsLinked(es: seq<Entry>, sorted: seq<Task>, c: seq<nat>)
    requires Straight(es, sorted) && |c| == |es| && forall k | 0 <= k < |c| :: c[k] == k
    ensures Linked(es, 0, c) && Covers(c, |es|) && Tasks(es) == sorted && Order(es, c) == sorted
  {
    forall k | 0 <= k < |es| ensures k in c {
      assert c[k] == k;
    }
    forall k | 0 <= k < |es| ensures LinkedAt(es, c, k) {
    }
  }

  lemma WaitsStart(es: seq<Entry>, first: seq<nat>, k: nat)
    requires k <= |first| && Distinct(first) && forall j | 0 <= j < |first| :: first[j] < |es|
    ensures Waits(es, es, first, first[k..], 0, k)
  {
  }

  lemma WaitsAt(es: seq<Entry>, fs: seq<Entry>, first: seq<nat>, c: seq<nat>, i: nat, k: nat)
    requires Waits(es, fs, first, c, i, k) && i < k
    ensures first[i] !in c && first[i] < |fs| == |es| && fs[first[i]] == es[first[i]]
  {
  }

  lemma WaitsStep(es: seq<Entry>, fs: seq<Entry>, gs: seq<Entry>, first: seq<nat>, c: seq<nat>, d: seq<nat>, i: nat,
                  k: nat)
    requires Waits(es, fs, first, c, i, k) && i < k && Distinct(first) && Inserted(fs, gs, c, d, first[i])
    ensures Waits(es, gs, first, d, i + 1, k)
  {
  }

  lemma WaitsEnd(es: seq<Entry>, fs: seq<Entry>, first: seq<nat>, c: seq<nat>, k: nat)
    requires Waits(es, fs, first, c, k, k) && Covers(first, |es|)
    ensures Covers(c, |es|)
  {
    forall i | 0 <= i < |es| ensures i in c {
      assert i in first;
    }
  }

  /** On a sorted queue the due tasks come first. */
  lemma DueFirst(q: seq<Task>, n: nat, now: int)
    requires Ascending(q) && n <= |q| && forall k | 0 <= k < n :: q[k].due <= now
    requires n < |q| ==> q[n].due > now
    ensures forall k | 0 <= k < |q| :: k < n <==> q[k].due <= now
  {
  }

  lemma Reflexive(ts: seq<Task>)
    ensures Permutation(ts, ts)
  {
  }

  /** With nothing run, or a single task, the queue is in order as it is. */
  lemma Settled(q: seq<Task>, n: nat, now: int)
    requires Ascending(q) && (n == 0 || |q| == 1) && forall k | 0 <= k < |q| :: k < n <==> q[k].due <= now
    ensures Ascending(RunAll(q, now))
  {
  }

  /** The tasks that were not due are still in order. */
  lemma Waiting(q: seq<Task>, n: nat, now: int)
    requires Ascending(q) && n <= |q| && forall k | 0 <= k < |q| :: k < n <==> q[k].due <= now
    ensures |RunAll(q, now)| == |q| && Ascending(RunAll(q, now)[n..])
  {
  }

  /** A task as it is handed in: how often it runs, and the moment of the day its runs are counted from. */
  datatype Plan = Plan(id: int, interval: int, base: Option<int>)

  /** `sched_init_entries`: when a task is due first. */
  function FirstDue(p: Plan, now: int): (due: int)
    requires p.interval > 0 && (p.base.Some? ==> p.base.value <= now)
    ensures now < due <= now + p.interval
  {
    match p.base
    case None => now + p.interval
    case Some(b) => now + p.interval - (now - b) % p.interval
  }

  /** It is the first moment after now that lies a whole number of intervals from the base. */
  lemma FirstDueExactly(p: Plan, now: int, t: int)
    requires p.interval > 0 && p.base.Some? && p.base.value <= now
    ensures (FirstDue(p, now) - p.base.value) % p.interval == 0
    ensures now < t < FirstDue(p, now) ==> (t - p.base.value) % p.interval != 0
  {
    var n, d := p.interval, now - p.base.value;
    ModSplit(d, n);
    var q := d / n + 1;
    assert FirstDue(p, now) - p.base.value == q * n + 0;
    ModUnique(q * n, q, 0, n);
    if now < t < FirstDue(p, now) {
      var e := t - p.base.value;
      ModUnique(e, q - 1, e - (q - 1) * n, n);
    }
  }

  predicate Startable(p: Plan, now: int) {
    0 < p.interval <= INT32_MAX && (p.base.Some? ==> p.base.value <= now)
  }

  function Started(p: Plan, now: int): Task
    requires Startable(p, now)
  {
    Task(p.id, p.interval, FirstDue(p, now))
  }

  predicate AllStartable(ps: seq<Plan>, now: int) { forall i | 0 <= i < |ps| :: Startable(ps[i], now) }

  function StartedAll(ps: seq<Plan>, now: int): seq<Task>
    requires AllStartable(ps, now)
  {
    seq(|ps|, i requires 0 <= i < |ps| => Started(ps[i], now))
  }

  lemma StartedBounds(ps: seq<Plan>, now: int)
    requires AllStartable(ps, now)
    ensures Bounded(StartedAll(ps, now), now) && Close(StartedAll(ps, now))
  {
    forall t | t in StartedAll(ps, now) ensures 0 < t.interval <= INT32_MAX && now < t.due <= now + INT32_MAX {
      var i :| 0 <= i < |ps| && StartedAll(ps, now)[i] == t;
    }
  }

  lemma FirstFound(ts: seq<Task>, id: int, i: nat)
    requires i <= |ts| && (forall j | 0 <= j < i :: ts[j].id != id) && (i < |ts| ==> ts[i].id == id)
    ensures Find(ts, id) == i
  {
  }

  lemma UpsertedIs(ts: seq<Task>, w: Task, i: nat)
    requires i == Find(ts, w.id)
    ensures Upserted(ts, w) == if i == |ts| then ts + [w] else ts[i := w]
  {
  }

  lemma NothingDeleted(ts: seq<Task>, id: int)
    ensures Find(ts, id) == |ts| ==> Deleted(ts, id) == ts
  {
  }

  // ---------- runs of passes ----------

  /** The task with this id is among those that ran in pass `n`. */
  ghost predicate RanIn(rans: seq<seq<Task>>, n: nat, id: int)
    requires n < |rans|
  {
    exists t | t in rans[n] :: t.id == id
  }

  /** Before pass `n` it ran last in pass `j`. */
  ghost predicate LastRan(rans: seq<seq<Task>>, n: nat, id: int, j: nat)
    requires n <= |rans|
  {
    j < n && RanIn(rans, j, id) && forall i | j < i < n :: !RanIn(rans, i, id)
  }

  ghost predicate NotYet(rans: seq<seq<Task>>, n: nat, id: int)
    requires n <= |rans|
  {
    forall i | 0 <= i < n :: !RanIn(rans, i, id)
  }

  /** A task is due at `due` after the first `n` passes. */
  ghost predicate DueAfter(t: Task, times: seq<int>, rans: seq<seq<Task>>, n: nat, due: int)
    requires n <= |rans| == |times|
  {
    && (NotYet(rans, n, t.id) ==> due == t.due)
    && (forall j: nat | LastRan(rans, n, t.id, j) :: due == times[j] + t.interval)
  }

  /**
    Pass `n` runs the task if and only if its time has come: the first time its own, and from then on
    its interval after the pass that ran it last.
   */
  ghost predicate OnTime(t: Task, times: seq<int>, rans: seq<seq<Task>>, n: nat)
    requires n < |rans| == |times|
  {
    && (NotYet(rans, n, t.id) ==> (RanIn(rans, n, t.id) <==> times[n] >= t.due))
    && (forall j: nat | LastRan(rans, n, t.id, j) :: RanIn(rans, n, t.id) <==> times[n] >= times[j] + t.interval)
  }

  /** What ran are tasks of the map, with the intervals they always had, each once. */
  ghost predicate Known(m: map<int, Task>, ran: seq<Task>) {
    UniqueIds(ran) && forall t | t in ran :: t.id in m && t.interval == m[t.id].interval
  }

  /** Every pass runs every task exactly when it should. */
  ghost predicate OnSchedule(m: map<int, Task>, times: seq<int>, rans: seq<seq<Task>>)
    requires |times| == |rans|
  {
    && (forall n | 0 <= n < |rans| :: Known(m, rans[n]))
    && (forall id, n | id in m && 0 <= n < |rans| :: OnTime(m[id], times, rans, n))
  }

  /** The tasks as they stand after those passes. */
  ghost predicate After(m: map<int, Task>, times: seq<int>, rans: seq<seq<Task>>, now: map<int, Task>)
    requires |times| == |rans|
  {
    && now.Keys == m.Keys
    && forall id | id in m ::
         && m[id].id == now[id].id == id && now[id].interval == m[id].interval
         && DueAfter(m[id], times, rans, |rans|, now[id].due)
  }

  /** What a pass does to the tasks by id. */
  ghost function PassMap(m: map<int, Task>, now: int): map<int, Task> {
    map id | id in m :: RunDue(m[id], now)
  }

  lemma RunAllIsMap(ts: seq<Task>, m: map<int, Task>, now: int)
    requires IsMap(ts, m)
    ensures IsMap(RunAll(ts, now), PassMap(m, now))
  {
    var us := RunAll(ts, now);
    forall t | t in us ensures t.id in m && PassMap(m, now)[t.id] == t {
      var i :| 0 <= i < |us| && us[i] == t;
      assert ts[i] in ts;
    }
    forall id | id in m ensures RunDue(m[id], now) in us {
      var i :| 0 <= i < |ts| && ts[i] == m[id];
      assert us[i] == RunDue(m[id], now);
    }
  }

  /** A chain through all entries holds the same tasks as the array. */
  lemma OrderHolds(es: seq<Entry>, head: int, c: seq<nat>)
    requires Linked(es, head, c) && Covers(c, |es|)
    ensures (forall k | 0 <= k < |c| :: c[k] < |es|)
    ensures (forall t :: t in Order(es, c) <==> t in Tasks(es)) && (UniqueIds(Tasks(es)) ==> UniqueIds(Order(es, c)))
  {
    InBounds(es, head, c);
    var q, ts := Order(es, c), Tasks(es);
    forall t | t in ts ensures t in q {
      var i :| 0 <= i < |ts| && ts[i] == t;
      assert i in c;
      var k :| 0 <= k < |c| && c[k] == i;
      assert q[k] == t;
    }
    forall t | t in q ensures t in ts {
      var k :| 0 <= k < |q| && q[k] == t;
      assert ts[c[k]] == t;
    }
    if UniqueIds(ts) {
      forall i, j | 0 <= i < j < |q| ensures q[i].id != q[j].id {
        assert q[i] == ts[c[i]] && q[j] == ts[c[j]] && c[i] != c[j];
      }
    }
  }

  /** What a pass runs, by id. */
  lemma RanByMap(q: seq<Task>, ts: seq<Task>, m: map<int, Task>, ran: seq<Task>, now: int)
    requires IsMap(ts, m) && UniqueIds(q) && forall t :: t in q <==> t in ts
    requires |ran| <= |q| && ran == q[..|ran|] && forall k | 0 <= k < |q| :: k < |ran| <==> q[k].due <= now
    ensures UniqueIds(ran) && forall t | t in ran :: t.id in m && t == m[t.id]
    ensures forall id | id in m :: (exists t | t in ran :: t.id == id) <==> m[id].due <= now
  {
    forall t | t in ran ensures t.id in m && t == m[t.id] && t.due <= now {
      var k :| 0 <= k < |ran| && ran[k] == t;
      assert q[k] == t && t in q;
    }
    forall id | id in m && m[id].due <= now ensures m[id] in ran {
      var t := m[id];
      assert t in q;
      var k :| 0 <= k < |q| && q[k] == t;
      assert ran[k] == t;
    }
  }

  /** Earlier passes are not affected by one more. */
  lemma RanMore(rans: seq<seq<Task>>, ran: seq<Task>, n: nat, id: int)
    requires n <= |rans|
    ensures NotYet(rans + [ran], n, id) <==> NotYet(rans, n, id)
    ensures forall j: nat :: LastRan(rans + [ran], n, id, j) <==> LastRan(rans, n, id, j)
    ensures n < |rans| ==> (RanIn(rans + [ran], n, id) <==> RanIn(rans, n, id))
  {
    forall i | 0 <= i < |rans| ensures RanIn(rans + [ran], i, id) <==> RanIn(rans, i, id) {
      assert (rans + [ran])[i] == rans[i];
    }
  }

  /** One task through one more pass. */
  lemma OnePass(t: Task, times: seq<int>, rans: seq<seq<Task>>, ran: seq<Task>, now: int, due: int)
    requires |times| == |rans| && DueAfter(t, times, rans, |rans|, due)
    requires (exists u | u in ran :: u.id == t.id) <==> due <= now
    ensures OnTime(t, times + [now], rans + [ran], |rans|)
    ensures DueAfter(t, times + [now], rans + [ran], |rans| + 1, if due <= now then now + t.interval else due)
  {
    hide RanIn, LastRan, NotYet;
    var n, more := |rans|, rans + [ran];
    RanMore(rans, ran, n, t.id);
    assert RanIn(more, n, t.id) <==> due <= now by { LastIs(rans, ran, t.id); }
    OneMoreRun(more, n, t.id);
    assert forall j: nat | LastRan(rans, n, t.id, j) :: (times + [now])[j] == times[j] by { LastBefore(rans, n, t.id); }
  }

  lemma LastIs(rans: seq<seq<Task>>, ran: seq<Task>, id: int)
    ensures RanIn(rans + [ran], |rans|, id) <==> exists u | u in ran :: u.id == id
  {
    assert (rans + [ran])[|rans|] == ran;
  }

  lemma LastBefore(rans: seq<seq<Task>>, n: nat, id: int)
    requires n <= |rans|
    ensures forall j: nat | LastRan(rans, n, id, j) :: j < n
  {
  }

  lemma OneMoreRun(rans: seq<seq<Task>>, n: nat, id: int)
    requires n < |rans|
    ensures NotYet(rans, n + 1, id) <==> NotYet(rans, n, id) && !RanIn(rans, n, id)
    ensures forall j: nat ::
              LastRan(rans, n + 1, id, j) <==> if RanIn(rans, n, id) then j == n else LastRan(rans, n, id, j)
  {
    hide RanIn;
    forall j: nat
      ensures LastRan(rans, n + 1, id, j) <==> if RanIn(rans, n, id) then j == n else LastRan(rans, n, id, j)
    {
      assert LastRan(rans, n + 1, id, j) && j < n ==> !RanIn(rans, n, id);
    }
  }

  /** A pass of the scheduler keeps to the schedule. */
  lemma PassKeeps(m: map<int, Task>, times: seq<int>, rans: seq<seq<Task>>, at: map<int, Task>, ran: seq<Task>,
                  now: int)
    requires |times| == |rans| && OnSchedule(m, times, rans) && After(m, times, rans, at)
    requires UniqueIds(ran) && forall t | t in ran :: t.id in at && t == at[t.id]
    requires forall id | id in at :: (exists t | t in ran :: t.id == id) <==> at[id].due <= now
    ensures OnSchedule(m, times + [now], rans + [ran])
    ensures After(m, times + [now], rans + [ran], PassMap(at, now))
  {
    hide OnTime, DueAfter, UniqueIds;
    var T, R := times + [now], rans + [ran];
    forall id | id in m
      ensures OnTime(m[id], T, R, |rans|) && DueAfter(m[id], T, R, |R|, RunDue(at[id], now).due)
    {
      OnePass(m[id], times, rans, ran, now, at[id].due);
    }
    forall id, n | id in m && 0 <= n < |rans| ensures OnTime(m[id], T, R, n) {
      EarlierPass(m[id], times, rans, ran, now, n);
    }
    forall n | 0 <= n < |R| ensures Known(m, R[n]) {
      assert n < |rans| ==> R[n] == rans[n];
    }
  }

  lemma EarlierPass(t: Task, times: seq<int>, rans: seq<seq<Task>>, ran: seq<Task>, now: int, n: nat)
    requires |times| == |rans| && n < |rans| && OnTime(t, times, rans, n)
    ensures OnTime(t, times + [now], rans + [ran], n)
  {
    hide RanIn, LastRan, NotYet;
    RanMore(rans, ran, n, t.id);
    assert forall j: nat | LastRan(rans, n, t.id, j) :: (times + [now])[j] == times[j] by { LastBefore(rans, n, t.id); }
  }

  lemma StartsOn(ts: seq<Task>, m: map<int, Task>)
    requires IsMap(ts, m)
    ensures OnSchedule(m, [], []) && After(m, [], [], m)
  {
  }

  lemma UniqueOf(ts: seq<Task>, m: map<int, Task>)
    requires IsMap(ts, m)
    ensures UniqueIds(ts)
  {
  }

  ghost predicate Later(times: seq<int>) { forall i, j | 0 <= i < j < |times| :: times[i] <= times[j] }

  /** The last pass that ran the task before pass `n`. */
  lemma {:induction false} FindLast(rans: seq<seq<Task>>, n: nat, id: int, i: nat) returns (j: nat)
    requires i < n <= |rans| && RanIn(rans, i, id)
    ensures i <= j && LastRan(rans, n, id, j)
    decreases n
  {
    hide RanIn;
    if RanIn(rans, n - 1, id) {
      j := n - 1;
    } else {
      j := FindLast(rans, n - 1, id, i);
    }
  }

  /**
    A task that ran in one pass runs in no later pass before its interval is over, and it runs in the
    first pass at or after that.
   */
  lemma Spaced(m: map<int, Task>, times: seq<int>, rans: seq<seq<Task>>, id: int, i: nat, j: nat)
    requires |times| == |rans| && OnSchedule(m, times, rans) && Later(times) && id in m && m[id].id == id
    requires i < j < |rans| && RanIn(rans, i, id)
    ensures times[j] < times[i] + m[id].interval ==> !RanIn(rans, j, id)
    ensures times[j] >= times[i] + m[id].interval && (forall l | i < l < j :: times[l] < times[i] + m[id].interval) ==>
              RanIn(rans, j, id)
    decreases j
  {
    hide RanIn;
    var l := FindLast(rans, j, id, i);
    assert OnTime(m[id], times, rans, j);
    if times[j] >= times[i] + m[id].interval && (forall l | i < l < j :: times[l] < times[i] + m[id].interval) {
      if l != i {
        Spaced(m, times, rans, id, i, l);
      }
    }
  }
}
