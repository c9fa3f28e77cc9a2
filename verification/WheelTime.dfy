/**
  When a timing wheel drains an entry. Each entry evolves on its own, so the timing of the whole
  wheel can be studied one entry at a time; `TimingWheel` links the entries into slots.
 */
module WheelTime {
  import opened Division
  import opened Bytes

  /** Slot count, time of slot 0, and the time up to which slots have been drained. */
  datatype Clock = Clock(n: nat, base: int, now: int)

  /** An entry: the slot it is linked into, its expiry, and the lazy-move flag. */
  datatype Item = Item(slot: nat, expires: int, rehash: bool)

  predicate Running(c: Clock) { c.n > 0 && c.base <= c.now }

  /** C remainder, which takes the sign of the dividend. */
  function Rem(x: int, n: nat): int
    requires n > 0
  {
    if x >= 0 then x % n else -((-x) % n)
  }

  function Max(a: int, b: int): int { if a > b then a else b }

  function SlotOf(c: Clock, t: int): nat
    requires c.n > 0 && c.base <= t
  {
    (t - c.base) % c.n
  }

  /** The first time, from now on, at which slot `s` is drained. */
  function Visit(c: Clock, s: nat): int
    requires Running(c)
  {
    c.now + (s - SlotOf(c, c.now)) % c.n
  }

  function Added(c: Clock, expires: int, rehash: bool): Item
    requires Running(c)
  {
    Item(SlotOf(c, Max(expires, c.now)), expires, rehash)
  }

  /** `fast_timer_modify`: earlier means moved at once, later means moved lazily. */
  function Modified(c: Clock, i: Item, expires: int): Item
    requires Running(c)
  {
    if expires == i.expires then i
    else if expires < i.expires then Added(c, expires, i.rehash)
    else Item(i.slot, expires, Rem(expires - c.base, c.n) != Rem(i.expires - c.base, c.n))
  }

  /** What draining does to an entry it meets: hand it out, move it, or leave it. */
  function Settled(c: Clock, i: Item, until: int): Option<Item>
    requires Running(c) && c.base <= until
  {
    if i.expires < until then None
    else if i.rehash then Some(Item(SlotOf(c, i.expires), i.expires, false))
    else Some(i)
  }

  /** `fast_timer_timeouts_get(until)` seen from one entry. */
  function Drained(c: Clock, i: Item, until: int): Option<Item>
    requires Running(c)
  {
    if c.now < until && Visit(c, i.slot) < until then Settled(c, i, until) else Some(i)
  }

  function Advanced(c: Clock, until: int): Clock { c.(now := Max(c.now, until)) }

  /** A series of drains at the given times. */
  function Run(c: Clock, i: Item, times: seq<int>): (Clock, Option<Item>)
    requires Running(c)
    decreases |times|
  {
    if times == [] then (c, Some(i))
    else
      var d := Advanced(c, times[0]);
      match Drained(c, i, times[0])
      case None => (d, None)
      case Some(j) => Run(d, j, times[1..])
  }

  /** The promise of a timer: after any drains, the next one hands out the entry exactly if it is due. */
  ghost predicate Prompt(c: Clock, i: Item)
    requires Running(c)
  {
    forall times, until | KeepsTo(c, i, times) && until > Run(c, i, times).0.now ::
      DueAt(c, i, times, until)
  }

  ghost predicate KeepsTo(c: Clock, i: Item, times: seq<int>)
    requires Running(c)
  {
    Running(Run(c, i, times).0) && Run(c, i, times).1.Some?
  }

  ghost predicate DueAt(c: Clock, i: Item, times: seq<int>, until: int)
    requires Running(c) && KeepsTo(c, i, times)
  {
    var r := Run(c, i, times);
    Drained(r.0, r.1.value, until).None? <==> i.expires < until
  }

  /** The local condition that makes the promise hold. */
  predicate OnTime(c: Clock, i: Item)
    requires Running(c)
  {
    && i.slot < c.n
    && Visit(c, i.slot) <= Max(i.expires, c.now)
    && (!i.rehash && i.expires >= c.now ==> i.slot == SlotOf(c, i.expires))
  }

  /** `Visit` is the least time from now on that falls on the slot. */
  lemma VisitIs(c: Clock, s: nat)
    requires Running(c) && s < c.n
    ensures c.now <= Visit(c, s) < c.now + c.n && SlotOf(c, Visit(c, s)) == s
  {
    var a, z := c.now - c.base, SlotOf(c, c.now);
    ModSplit(a, c.n);
    var d := (s - z) % c.n;
    ModSplit(s - z, c.n);
    var q := a / c.n - (s - z) / c.n;
    assert a + d == q * c.n + s by {
      assert q * c.n == a / c.n * c.n - (s - z) / c.n * c.n;
    }
    ModUnique(a + d, q, s, c.n);
  }

  lemma VisitLeast(c: Clock, s: nat, t: int)
    requires Running(c) && s < c.n && c.now <= t && SlotOf(c, t) == s
    ensures Visit(c, s) <= t
  {
    VisitIs(c, s);
    var v := Visit(c, s);
    if t < v {
      SameSlot(c, t, v);
    }
  }

  /** Two times on one slot are a whole number of turns apart. */
  lemma SameSlot(c: Clock, t: int, u: int)
    requires c.n > 0 && c.base <= t < u && SlotOf(c, t) == SlotOf(c, u)
    ensures u - t >= c.n
  {
    var a, b := t - c.base, u - c.base;
    ModSplit(a, c.n);
    ModSplit(b, c.n);
    var k := b / c.n - a / c.n;
    assert k * c.n == u - t by {
      assert k * c.n == b / c.n * c.n - a / c.n * c.n;
    }
    Times(k, c.n);
  }

  lemma AddedOnTime(c: Clock, expires: int, rehash: bool)
    requires Running(c)
    ensures OnTime(c, Added(c, expires, rehash))
  {
    VisitLeast(c, SlotOf(c, Max(expires, c.now)), Max(expires, c.now));
  }

  /** A drain hands out an entry on time exactly if it is due, and leaves the others on time. */
  lemma DrainedOnTime(c: Clock, i: Item, until: int)
    requires Running(c) && OnTime(c, i) && until > c.now
    ensures Drained(c, i, until).None? <==> i.expires < until
    ensures i.expires >= until ==>
      var j := Drained(c, i, until).value;
      j.expires == i.expires && OnTime(Advanced(c, until), j)
  {
    if i.expires >= until {
      var d, j := Advanced(c, until), Drained(c, i, until).value;
      if Visit(c, i.slot) < until {
        assert j.slot == SlotOf(d, i.expires);
        VisitLeast(d, j.slot, i.expires);
      } else {
        VisitIs(c, i.slot);
        VisitLeast(d, i.slot, Visit(c, i.slot));
      }
    }
  }

  lemma {:induction false} RunOnTime(c: Clock, i: Item, times: seq<int>)
    requires Running(c) && OnTime(c, i)
    ensures var r := Run(c, i, times);
            Running(r.0) && (r.1.Some? ==> r.1.value.expires == i.expires && OnTime(r.0, r.1.value))
    decreases |times|
  {
    if times != [] {
      if times[0] > c.now {
        DrainedOnTime(c, i, times[0]);
      }
      if Drained(c, i, times[0]).Some? {
        RunOnTime(Advanced(c, times[0]), Drained(c, i, times[0]).value, times[1..]);
      }
    }
  }

  /** The promise holds exactly under the local condition. */
  lemma PromptExactly(c: Clock, i: Item)
    requires Running(c) && i.slot < c.n
    ensures Prompt(c, i) <==> OnTime(c, i)
  {
    if OnTime(c, i) {
      forall times, until | KeepsTo(c, i, times) && until > Run(c, i, times).0.now
        ensures DueAt(c, i, times, until)
      {
        RunOnTime(c, i, times);
        DrainedOnTime(Run(c, i, times).0, Run(c, i, times).1.value, until);
      }
    } else {
      NotPrompt(c, i);
    }
  }

  lemma NotPrompt(c: Clock, i: Item)
    requires Running(c) && i.slot < c.n && !OnTime(c, i)
    ensures !Prompt(c, i)
  {
    if Visit(c, i.slot) > Max(i.expires, c.now) {
      assert KeepsTo(c, i, []);
      assert !DueAt(c, i, [], Max(i.expires, c.now) + 1);
    } else {
      LateAfterDrain(c, i);
      assert !DueAt(c, i, [i.expires], i.expires + 1);
    }
  }

  /** The two drains that miss an unflagged entry sitting in the wrong slot. */
  lemma LateAfterDrain(c: Clock, i: Item)
    requires Running(c) && i.slot < c.n && Visit(c, i.slot) <= Max(i.expires, c.now)
    requires !i.rehash && i.expires >= c.now && i.slot != SlotOf(c, i.expires)
    ensures KeepsTo(c, i, [i.expires]) && Run(c, i, [i.expires]) == (c.(now := i.expires), Some(i))
    ensures Drained(c.(now := i.expires), i, i.expires + 1) == Some(i)
  {
    var e := i.expires;
    VisitIs(c, i.slot);
    var d := c.(now := e);
    VisitIs(d, i.slot);
    assert [e][1..] == [];
    assert Run(d, i, []) == (d, Some(i));
  }

  /** Lengthening by whole turns an entry that does not sit in the slot of its new expiry. */
  predicate Strands(c: Clock, i: Item, expires: int)
    requires Running(c)
  {
    && expires > i.expires && expires >= c.now
    && Rem(expires - c.base, c.n) == Rem(i.expires - c.base, c.n)
    && i.slot != SlotOf(c, expires)
  }

  /** A modified entry keeps the promise unless the modification strands it. */
  lemma ModifyExactly(c: Clock, i: Item, expires: int)
    requires Running(c) && OnTime(c, i)
    ensures Prompt(c, Modified(c, i, expires)) <==> !Strands(c, i, expires)
  {
    var j := Modified(c, i, expires);
    PromptExactly(c, j);
    if expires < i.expires {
      AddedOnTime(c, expires, i.rehash);
    }
  }

  /** An entry that carries no pending move and is not overdue can be lengthened at will. */
  lemma SettledNeverStrands(c: Clock, i: Item, expires: int)
    requires Running(c) && OnTime(c, i) && !i.rehash && i.expires >= c.now
    ensures !Strands(c, i, expires)
  {
  }

  /** Nor can an extension shorter than a full turn strand an entry. */
  lemma ShortNeverStrands(c: Clock, i: Item, expires: int)
    requires Running(c) && expires - i.expires < c.n
    ensures !Strands(c, i, expires)
  {
    if Strands(c, i, expires) {
      if i.expires >= c.base {
        SameSlot(c, i.expires, expires);
      } else {
        var a, b := c.base - i.expires, expires - c.base;
        ModSplit(a, c.n);
        ModSplit(b, c.n);
        assert a % c.n == 0 && b % c.n == 0;
        Times(a / c.n, c.n);
      }
    }
  }

  /** Two extensions in a row, the second by one full turn, strand an entry: it is handed out late. */
  lemma TwoExtensionsStrand()
    ensures var c := Clock(10, 100, 100);
            var i := Modified(c, Added(c, 101, false), 102);
            && OnTime(c, i) && !Prompt(c, Modified(c, i, 112))
  {
    var c := Clock(10, 100, 100);
    AddedOnTime(c, 101, false);
    ModifyExactly(c, Added(c, 101, false), 102);
    var i := Modified(c, Added(c, 101, false), 102);
    PromptExactly(c, i);
    ModifyExactly(c, i, 112);
  }

  /** A whole wheel: its clock and what it knows of each entry. */
  datatype Wheel<K> = Wheel(clock: Clock, items: map<K, Item>)

  datatype Op<K> = Add(k: K, expires: int, rehash: bool) | Remove(k: K) | Modify(k: K, expires: int) | Get(until: int)

  /** What the source's callers owe: adding detached entries, modifying linked ones. */
  predicate Owed<K>(keys: set<K>, op: Op<K>) {
    match op
    case Add(k, _, _) => k !in keys
    case Remove(_) => true
    case Modify(k, _) => k in keys
    case Get(_) => true
  }

  function Due<K>(w: Wheel<K>, until: int): set<K>
    requires Running(w.clock)
  {
    set k | k in w.items && Drained(w.clock, w.items[k], until).None?
  }

  function Apply<K>(w: Wheel<K>, op: Op<K>): (Wheel<K>, set<K>)
    requires Running(w.clock) && Owed(w.items.Keys, op)
  {
    match op
    case Add(k, expires, rehash) => (w.(items := w.items[k := Added(w.clock, expires, rehash)]), {})
    case Remove(k) => (w.(items := w.items - {k}), {})
    case Modify(k, expires) => (w.(items := w.items[k := Modified(w.clock, w.items[k], expires)]), {})
    case Get(until) =>
      (Wheel(Advanced(w.clock, until),
             map k | k in w.items && k !in Due(w, until) :: Drained(w.clock, w.items[k], until).value),
       Due(w, until))
  }

  /** The plain reference: expiries by entry, and the time of the last hand-out. */
  datatype Plain<K> = Plain(now: int, expiry: map<K, int>)

  function ApplyPlain<K>(p: Plain<K>, op: Op<K>): (Plain<K>, set<K>)
  {
    match op
    case Add(k, expires, _) => (p.(expiry := p.expiry[k := expires]), {})
    case Remove(k) => (p.(expiry := p.expiry - {k}), {})
    case Modify(k, expires) => (p.(expiry := p.expiry[k := expires]), {})
    case Get(until) =>
      if until <= p.now then (p, {})
      else
        (Plain(until, map k | k in p.expiry && p.expiry[k] >= until :: p.expiry[k]),
         set k | k in p.expiry && p.expiry[k] < until)
  }

  function Abstract<K>(w: Wheel<K>): Plain<K> {
    Plain(w.clock.now, map k | k in w.items :: w.items[k].expires)
  }

  ghost predicate AllOnTime<K>(w: Wheel<K>) {
    Running(w.clock) && forall k | k in w.items :: OnTime(w.clock, w.items[k])
  }

  /** The one thing a caller must avoid for the wheel to keep time. */
  predicate StrandsAny<K>(w: Wheel<K>, op: Op<K>)
    requires Running(w.clock) && Owed(w.items.Keys, op)
  {
    op.Modify? && Strands(w.clock, w.items[op.k], op.expires)
  }

  lemma GetRefines<K>(w: Wheel<K>, until: int)
    requires AllOnTime(w)
    ensures var (v, out) := Apply(w, Op.Get(until));
            AllOnTime(v) && (Abstract(v), out) == ApplyPlain(Abstract(w), Op.Get(until))
  {
    hide OnTime;
    var c, p, op := w.clock, Abstract(w), Op<K>.Get(until);
    forall k | k in w.items && until > c.now
      ensures Drained(c, w.items[k], until).None? <==> w.items[k].expires < until
      ensures w.items[k].expires >= until ==>
                && Drained(c, w.items[k], until).value.expires == w.items[k].expires
                && OnTime(Advanced(c, until), Drained(c, w.items[k], until).value)
    {
      DrainedOnTime(c, w.items[k], until);
    }
    assert Due(w, until) == ApplyPlain(p, op).1;
    assert Abstract(Apply(w, op).0).expiry == ApplyPlain(p, op).0.expiry;
  }

  /** One operation on a wheel that keeps time is that operation on the plain map, and it keeps
      keeping time exactly if it strands no entry. */
  lemma StepRefines<K>(w: Wheel<K>, op: Op<K>)
    requires AllOnTime(w) && Owed(w.items.Keys, op)
    ensures var (v, out) := Apply(w, op);
            && (AllOnTime(v) <==> !StrandsAny(w, op))
            && (Abstract(v), out) == ApplyPlain(Abstract(w), op)
  {
    hide OnTime;
    var c := w.clock;
    match op {
      case Add(k, expires, rehash) =>
        AddedOnTime(c, expires, rehash);
        assert Abstract(Apply(w, op).0).expiry == Abstract(w).expiry[k := expires];
      case Remove(k) =>
        assert Abstract(Apply(w, op).0).expiry == Abstract(w).expiry - {k};
      case Modify(k, expires) =>
        var j := Modified(c, w.items[k], expires);
        ModifyExactly(c, w.items[k], expires);
        ModifiedSlot(c, w.items[k], expires);
        PromptExactly(c, j);
        assert k in Apply(w, op).0.items;
        assert Abstract(Apply(w, op).0).expiry == Abstract(w).expiry[k := expires];
      case Get(until) => GetRefines(w, until);
    }
  }

  lemma ModifiedSlot(c: Clock, i: Item, expires: int)
    requires Running(c) && OnTime(c, i)
    ensures Modified(c, i, expires).slot < c.n
  {
  }

  /** A run whose every operation is owed and strands nothing. */
  ghost predicate Careful<K>(w: Wheel<K>, ops: seq<Op<K>>)
    decreases |ops|
  {
    ops == [] || (
      && Running(w.clock) && Owed(w.items.Keys, ops[0]) && !StrandsAny(w, ops[0])
      && Careful(Apply(w, ops[0]).0, ops[1..])
    )
  }

  /** The entries handed out at each operation of a run. */
  ghost function Outputs<K>(w: Wheel<K>, ops: seq<Op<K>>): seq<set<K>>
    requires Careful(w, ops)
    decreases |ops|
  {
    if ops == [] then [] else [Apply(w, ops[0]).1] + Outputs(Apply(w, ops[0]).0, ops[1..])
  }

  ghost function PlainOutputs<K>(p: Plain<K>, ops: seq<Op<K>>): seq<set<K>>
    decreases |ops|
  {
    if ops == [] then [] else [ApplyPlain(p, ops[0]).1] + PlainOutputs(ApplyPlain(p, ops[0]).0, ops[1..])
  }

  /** Over any careful run the wheel hands out what the plain map of expiries hands out. */
  lemma {:induction false} RunRefines<K>(w: Wheel<K>, ops: seq<Op<K>>)
    requires AllOnTime(w) && Careful(w, ops)
    ensures Outputs(w, ops) == PlainOutputs(Abstract(w), ops)
    decreases |ops|
  {
    hide AllOnTime, Apply, ApplyPlain, Abstract;
    if ops != [] {
      StepRefines(w, ops[0]);
      RunRefines(Apply(w, ops[0]).0, ops[1..]);
    }
  }

  /** The caller's view: operations on the plain map, with every extension shorter than a turn. */
  ghost predicate ShortRun<K>(p: Plain<K>, n: nat, ops: seq<Op<K>>)
    decreases |ops|
  {
    ops == [] || (
      && Owed(p.expiry.Keys, ops[0])
      && (ops[0].Modify? ==> ops[0].expires - p.expiry[ops[0].k] < n)
      && ShortRun(ApplyPlain(p, ops[0]).0, n, ops[1..])
    )
  }

  lemma {:induction false} ShortIsCareful<K>(w: Wheel<K>, ops: seq<Op<K>>)
    requires AllOnTime(w) && ShortRun(Abstract(w), w.clock.n, ops)
    ensures Careful(w, ops)
    decreases |ops|
  {
    if ops != [] {
      var op := ops[0];
      assert w.items.Keys == Abstract(w).expiry.Keys;
      if op.Modify? {
        ShortNeverStrands(w.clock, w.items[op.k], op.expires);
      }
      StepRefines(w, op);
      assert Apply(w, op).0.clock.n == w.clock.n;
      ShortIsCareful(Apply(w, op).0, ops[1..]);
    }
  }

  /** A wheel of `n` slots used with extensions shorter than `n` is exact over every run. */
  lemma WheelIsExact<K>(n: nat, start: int, ops: seq<Op<K>>)
    requires n > 0 && ShortRun(Plain(start, map[]), n, ops)
    ensures var w := Wheel(Clock(n, start, start), map[]);
            Careful(w, ops) && Outputs(w, ops) == PlainOutputs(Plain(start, map[]), ops)
  {
    var w: Wheel<K> := Wheel(Clock(n, start, start), map[]);
    assert Abstract(w) == Plain(start, map[]);
    ShortIsCareful(w, ops);
    RunRefines(w, ops);
  }
}
