/** The timing wheel as the source keeps it: doubly linked slot lists relinked in place. */
module TimingWheel {
  import opened Bytes
  import opened WheelTime

  class Entry {
    var expires: int
    var rehash: bool
    var prev: Entry?
    var next: Entry?

    constructor (expires: int)
      ensures this.expires == expires && !rehash && prev == null && next == null
    {
      this.expires, rehash, prev, next := expires, false, null, null;
    }
  }

  ghost function At(l: seq<Entry>, j: nat): Entry? { if j < |l| then l[j] else null }

  ghost function Before(h: Entry, l: seq<Entry>, j: nat): Entry
    requires j <= |l|
  {
    if j == 0 then h else l[j - 1]
  }

  ghost predicate Distinct(l: seq<Entry>) {
    forall i, j | 0 <= i < j < |l| :: l[i] != l[j]
  }

  ghost function Without(l: seq<Entry>, j: nat): seq<Entry>
    requires j < |l|
  {
    l[..j] + l[j + 1..]
  }

  ghost predicate LinkedAt(h: Entry, l: seq<Entry>, j: nat)
    requires j < |l|
    reads l[j]
  {
    l[j].prev == Before(h, l, j) && l[j].next == At(l, j + 1)
  }

  /** `l` is the list hanging off the sentinel `h`, ended by null. */
  ghost predicate Linked(h: Entry, l: seq<Entry>)
    reads h, l
  {
    h.next == At(l, 0) && forall j | 0 <= j < |l| :: LinkedAt(h, l, j)
  }

  /** A list whose pointers have not changed is still that list. */
  twostate lemma StillLinked(list: (Entry, seq<Entry>))
    requires list.0.next == old(list.0.next)
    requires forall x | x in list.1 :: x.prev == old(x.prev) && x.next == old(x.next)
    ensures old(Linked(list.0, list.1)) ==> Linked(list.0, list.1)
  {
    var (h, l) := list;
    assert forall j | 0 <= j < |l| :: old(LinkedAt(h, l, j)) ==> LinkedAt(h, l, j);
  }

  /** The body of `fast_timer_add` on one list. */
  method PushFront(h: Entry, e: Entry, ghost l: seq<Entry>)
    requires Linked(h, l) && Distinct(l) && h !in l && e !in l && e != h
    modifies h`next, e`prev, e`next, l`prev
    ensures Linked(h, [e] + l)
  {
    assert l != [] ==> LinkedAt(h, l, 0);
    e.next := h.next;
    if h.next != null {
      h.next.prev := e;
    }
    e.prev := h;
    h.next := e;
    ghost var m := [e] + l;
    forall k | 0 <= k < |m| ensures LinkedAt(h, m, k) {
      assert k > 0 ==> m[k] == l[k - 1] && old(LinkedAt(h, l, k - 1));
    }
  }

  /** The body of `fast_timer_remove` on one list. */
  method Unlink(e: Entry, ghost h: Entry, ghost l: seq<Entry>, ghost j: nat)
    requires Linked(h, l) && Distinct(l) && h !in l && j < |l| && l[j] == e
    modifies h`next, l`prev, l`next
    ensures Linked(h, Without(l, j)) && e.prev == null && e.next == null
  {
    assert LinkedAt(h, l, j);
    assert j > 0 ==> LinkedAt(h, l, j - 1);
    assert j + 1 < |l| ==> LinkedAt(h, l, j + 1);
    var p, q := e.prev, e.next;
    if q != null {
      q.prev := p;
      p.next := q;
      e.next := null;
    } else {
      p.next := null;
    }
    e.prev := null;
    ghost var m := Without(l, j);
    forall i | 0 <= i < |m| ensures LinkedAt(h, m, i) {
      if i < j {
        assert m[i] == l[i] && old(LinkedAt(h, l, i));
      } else {
        assert m[i] == l[i + 1] && old(LinkedAt(h, l, i + 1));
      }
    }
  }

  /** Like `Linked`, but the last pointer may still point anywhere. */
  ghost predicate Open(h: Entry, l: seq<Entry>)
    reads h, l
  {
    h.next == At(l, 0) && forall j | 0 <= j < |l| :: OpenAt(h, l, j)
  }

  ghost predicate OpenAt(h: Entry, l: seq<Entry>, j: nat)
    requires j < |l|
    reads l[j]
  {
    l[j].prev == Before(h, l, j) && (j + 1 < |l| ==> l[j].next == l[j + 1])
  }

  twostate lemma StillOpen(list: (Entry, seq<Entry>))
    requires list.0.next == old(list.0.next)
    requires forall x | x in list.1 :: x.prev == old(x.prev) && x.next == old(x.next)
    ensures old(Open(list.0, list.1)) ==> Open(list.0, list.1)
  {
    var (h, l) := list;
    assert forall j | 0 <= j < |l| :: old(OpenAt(h, l, j)) ==> OpenAt(h, l, j);
  }

  lemma EmptyResult(h: Entry)
    requires h.next == null
    ensures Linked(h, []) && Open(h, []) && Distinct([])
  {
  }

  lemma Nothing(h: Entry)
    requires Open(h, [])
    ensures Linked(h, [])
  {
  }

  /** An open list whose last pointer has been cleared is a list. */
  twostate lemma Closed(list: (Entry, seq<Entry>))
    requires list.0 !in list.1 && Distinct(list.1) && list.0.next == old(list.0.next)
    requires list.1 != [] ==> list.1[|list.1| - 1].next == null
    requires forall x | x in list.1 :: x.prev == old(x.prev)
    requires forall x | x in list.1 && x != Before(list.0, list.1, |list.1|) :: x.next == old(x.next)
    ensures old(Open(list.0, list.1)) ==> Linked(list.0, list.1)
  {
    var (h, l) := list;
    assert forall i | 0 <= i < |l| :: old(OpenAt(h, l, i)) ==> LinkedAt(h, l, i);
  }

  lemma RunApart(l: seq<Entry>, a: nat, b: nat)
    requires Distinct(l) && a <= b <= |l|
    ensures Distinct(l[a..b]) && forall x | x in l[..a] + l[b..] :: x !in l[a..b] && x in l
    ensures forall x | x in l[a..b] :: x in l
  {
  }

  lemma DistinctConcat(l: seq<Entry>, m: seq<Entry>)
    requires Distinct(l) && Distinct(m) && forall x | x in l :: x !in m
    ensures Distinct(l + m)
  {
    forall i, j | 0 <= i < j < |l + m| ensures (l + m)[i] != (l + m)[j] {
      if i < |l| <= j {
        assert l[i] in l && m[j - |l|] in m;
      }
    }
  }

  /** The inner pointers of a run of entries. */
  ghost predicate Joined(r: seq<Entry>)
    reads r
  {
    forall j | 0 <= j < |r| - 1 :: JoinedAt(r, j)
  }

  ghost predicate JoinedAt(r: seq<Entry>, j: nat)
    requires j + 1 < |r|
    reads r[j], r[j + 1]
  {
    r[j].next == r[j + 1] && r[j + 1].prev == r[j]
  }

  /** Cuts the run from `a` to `b` out of a list; its inner pointers stay. */
  method Cut(first: Entry, entry: Entry?, ghost h: Entry, ghost l: seq<Entry>, ghost a: nat, ghost b: nat)
    requires Linked(h, l) && Distinct(l) && h !in l
    requires a < b <= |l| && first == l[a] && entry == At(l, b)
    modifies h`next, l`prev, l`next
    ensures Linked(h, l[..a] + l[b..]) && Joined(l[a..b])
  {
    assert LinkedAt(h, l, a);
    var before := first.prev;
    before.next := entry;
    if entry != null {
      entry.prev := before;
    }
    ghost var m, d, r := l[..a] + l[b..], b - a, l[a..b];
    forall i | 0 <= i < |m| ensures LinkedAt(h, m, i) {
      if i < a {
        assert m[i] == l[i] && old(LinkedAt(h, l, i));
      } else {
        assert m[i] == l[i + d] && old(LinkedAt(h, l, i + d));
      }
    }
    forall j | 0 <= j < |r| - 1 ensures JoinedAt(r, j) {
      assert old(LinkedAt(h, l, a + j)) && old(LinkedAt(h, l, a + j + 1));
    }
  }

  /** Hangs a run at the end of an open list. */
  method Append(first: Entry, tail: Entry, ghost head: Entry, ghost out: seq<Entry>, ghost r: seq<Entry>)
    requires Joined(r) && r != [] && first == r[0]
    requires Open(head, out) && Distinct(out + r) && tail == Before(head, out, |out|)
    requires head !in out + r
    modifies head`next, out`next, r`prev
    ensures Open(head, out + r)
  {
    ghost var m, k := out + r, |out|;
    assert tail == Before(head, m, k) && first == m[k];
    tail.next := first;
    first.prev := tail;
    forall i | 0 <= i < |m| ensures OpenAt(head, m, i) {
      if i < k {
        assert m[i] == out[i] && old(OpenAt(head, out, i));
      } else {
        assert m[i] == r[i - k];
        assert i > k ==> m[i - 1] == r[i - k - 1] && old(JoinedAt(r, i - k - 1));
        assert i + 1 < |m| ==> m[i + 1] == r[i - k + 1] && old(JoinedAt(r, i - k));
      }
    }
  }

  /** Moves the run from `a` to `b` of the list `l` of `h` to the end of the list of `head`. */
  method Splice(first: Entry, tail: Entry, entry: Entry?, ghost h: Entry, ghost l: seq<Entry>, ghost a: nat,
                ghost b: nat, ghost head: Entry, ghost out: seq<Entry>)
    requires Linked(h, l) && Distinct(l) && h !in l && a < b <= |l| && first == l[a] && entry == At(l, b)
    requires Open(head, out) && Distinct(out) && tail == Before(head, out, |out|)
    requires h != head && h !in out && head !in out && head !in l && forall x | x in out :: x !in l
    modifies h`next, l`prev, l`next, head`next, out`next
    ensures Linked(h, l[..a] + l[b..]) && Open(head, out + l[a..b]) && Distinct(out + l[a..b])
  {
    hide Linked, Distinct, Open, Joined;
    ghost var r, m := l[a..b], l[..a] + l[b..];
    RunApart(l, a, b);
    DistinctConcat(out, r);
    Cut(first, entry, h, l, a, b);
    StillOpen((head, out));
    label uncut:
    Append(first, tail, head, out, r);
    StillLinked@uncut((h, m));
  }

  ghost function Elems(r: seq<Entry>): set<Entry> { set x | x in r }

  /** Every entry sits in exactly one slot list; sentinels sit in none. */
  ghost predicate Book(heads: seq<Entry>, lists: seq<seq<Entry>>, at: map<Entry, nat>) {
    && |heads| == |lists| && Distinct(heads)
    && (forall i | 0 <= i < |heads| :: heads[i] !in at)
    && (forall e | e in at :: at[e] < |lists| && e in lists[at[e]])
    && (forall i, j | 0 <= i < |lists| && 0 <= j < |lists[i]| :: lists[i][j] in at && at[lists[i][j]] == i)
    && (forall i | 0 <= i < |lists| :: Distinct(lists[i]))
  }

  lemma BookAdd(heads: seq<Entry>, lists: seq<seq<Entry>>, at: map<Entry, nat>, s: nat, e: Entry)
    requires Book(heads, lists, at) && s < |lists| && e !in at && e !in heads
    ensures Book(heads, lists[s := [e] + lists[s]], at[e := s])
  {
  }

  lemma BookRemove(heads: seq<Entry>, lists: seq<seq<Entry>>, at: map<Entry, nat>, s: nat, j: nat)
    requires Book(heads, lists, at) && s < |lists| && j < |lists[s]|
    ensures Book(heads, lists[s := Without(lists[s], j)], at - {lists[s][j]})
  {
  }

  /** Relinking one slot leaves the lists of the others alone. */
  lemma Apart(heads: seq<Entry>, lists: seq<seq<Entry>>, at: map<Entry, nat>, s: nat)
    requires Book(heads, lists, at) && s < |lists|
    ensures forall k | 0 <= k < |lists| && k != s :: heads[k] != heads[s] && heads[k] !in lists[s]
    ensures forall k | 0 <= k < |lists| && k != s :: forall x | x in lists[k] :: x in at && x !in lists[s] && x !in heads
  {
  }

  lemma Inside(heads: seq<Entry>, lists: seq<seq<Entry>>, at: map<Entry, nat>, s: nat)
    requires Book(heads, lists, at) && s < |lists|
    ensures heads[s] !in lists[s] && Distinct(lists[s]) && forall x | x in lists[s] :: x in at
  {
  }

  lemma BookRelease(heads: seq<Entry>, lists: seq<seq<Entry>>, at: map<Entry, nat>, s: nat, a: nat, b: nat)
    requires Book(heads, lists, at) && s < |lists| && a <= b <= |lists[s]|
    ensures var l := lists[s]; Book(heads, lists[s := l[..a] + l[b..]], at - Elems(l[a..b]))
  {
    var l := lists[s];
    var r, m := l[a..b], l[..a] + l[b..];
    var u, v := lists[s := m], at - Elems(r);
    RunApart(l, a, b);
    assert l == l[..a] + r + l[b..];
    forall x | x in v ensures v[x] < |u| && x in u[v[x]] {
      assert at[x] == s ==> x in l;
    }
    forall i, k | 0 <= i < |u| && 0 <= k < |u[i]| ensures u[i][k] in v && v[u[i][k]] == i {
      assert u[i][k] in lists[i];
    }
    DistinctAround(l, a, b);
  }

  lemma DistinctAround(l: seq<Entry>, a: nat, b: nat)
    requires Distinct(l) && a <= b <= |l|
    ensures Distinct(l[..a] + l[b..])
  {
    var m := l[..a] + l[b..];
    forall i, j | 0 <= i < j < |m| ensures m[i] != m[j] {
      assert m[i] == l[if i < a then i else i + (b - a)];
      assert m[j] == l[if j < a then j else j + (b - a)];
    }
  }

  lemma NotHeads(heads: seq<Entry>, lists: seq<seq<Entry>>, at: map<Entry, nat>)
    requires Book(heads, lists, at)
    ensures forall e | e in at :: e !in heads
  {
  }

  lemma NotListed(heads: seq<Entry>, lists: seq<seq<Entry>>, at: map<Entry, nat>, e: Entry)
    requires Book(heads, lists, at) && e !in at
    ensures forall s | 0 <= s < |lists| :: e !in lists[s]
  {
  }

  /** Where an entry is listed; there is only one place. */
  lemma Find(heads: seq<Entry>, lists: seq<seq<Entry>>, at: map<Entry, nat>, e: Entry) returns (s: nat, j: nat)
    requires Book(heads, lists, at) && e in at
    ensures s == at[e] && s < |lists| && j < |lists[s]| && lists[s][j] == e
    ensures forall t, k | 0 <= t < |lists| && 0 <= k < |lists[t]| && lists[t][k] == e :: t == s && k == j
  {
    s := at[e];
    j :| 0 <= j < |lists[s]| && lists[s][j] == e;
  }

  lemma HasPrev(h: Entry, l: seq<Entry>, j: nat)
    requires Linked(h, l) && j < |l|
    ensures l[j].prev != null
  {
    assert LinkedAt(h, l, j);
  }

  /** An entry still in the wheel carries `i`, or has been handed out. */
  ghost predicate Became(e: Entry, i: Option<Item>, items: map<Entry, Item>, out: seq<Entry>) {
    match i
    case None => e !in items && e in out
    case Some(i) => e in items && items[e] == i
  }

  /** The effect of draining slot `s` on all entries. */
  ghost predicate SlotDrained(c: Clock, s: nat, until: int, start: map<Entry, Item>, items: map<Entry, Item>,
                              out: seq<Entry>)
    requires Running(c) && c.now <= until
  {
    forall e | e in start ::
      Became(e, if start[e].slot == s then Settled(c, start[e], until) else Some(start[e]), items, out)
  }

  /**
    Half way through slot `s`, whose list is now `l`: before `a` entries are dealt with, from `a` to
    `b` lies a run of expired ones still linked, from `b` on the list is as it was.
   */
  ghost predicate Draining(c: Clock, s: nat, until: int, start: map<Entry, Item>, l: seq<Entry>,
                           items: map<Entry, Item>, out: seq<Entry>, a: nat, b: nat)
    requires Running(c) && c.now <= until
  {
    && a <= b <= |l|
    && (forall j | a <= j < |l| ::
          l[j] in items && l[j] in start && start[l[j]].slot == s && items[l[j]] == start[l[j]])
    && (forall j | a <= j < b :: start[l[j]].expires < until)
    && (forall e | e in start && e !in l[a..] ::
          Became(e, if start[e].slot == s then Settled(c, start[e], until) else Some(start[e]), items, out))
    && Distinct(l)
  }

  lemma DrainStart(heads: seq<Entry>, lists: seq<seq<Entry>>, at: map<Entry, nat>, c: Clock, s: nat, until: int,
                   start: map<Entry, Item>, out: seq<Entry>)
    requires Running(c) && c.now <= until && Book(heads, lists, at) && s < |lists|
    requires at.Keys == start.Keys && forall e | e in at :: start[e].slot == at[e]
    ensures Draining(c, s, until, start, lists[s], start, out, 0, 0)
  {
  }

  lemma DrainBounds(c: Clock, s: nat, until: int, start: map<Entry, Item>, l: seq<Entry>, items: map<Entry, Item>,
                    out: seq<Entry>, a: nat, b: nat)
    requires Running(c) && c.now <= until && Draining(c, s, until, start, l, items, out, a, b)
    ensures a <= b <= |l|
    ensures b < |l| ==> l[b] in items && items[l[b]].slot == s && l[b] in start && items[l[b]] == start[l[b]]
  {
  }

  lemma DrainRelease(c: Clock, s: nat, until: int, start: map<Entry, Item>, l: seq<Entry>, items: map<Entry, Item>,
                     out: seq<Entry>, a: nat, b: nat)
    requires Running(c) && c.now <= until && Draining(c, s, until, start, l, items, out, a, b)
    ensures a <= b <= |l|
    ensures Draining(c, s, until, start, l[..a] + l[b..], items - Elems(l[a..b]), out + l[a..b], a, a)
    ensures (l[..a] + l[b..])[a..] == l[b..] && forall x | x in l[a..b] :: x in start
  {
    var m, r := l[..a] + l[b..], l[a..b];
    RunApart(l, a, b);
    assert l[a..] == r + l[b..] && m[a..] == l[b..];
    forall j | a <= j < |m| ensures m[j] == l[j + (b - a)] && m[j] !in r {
      assert m[j] in m;
    }
    DistinctAround(l, a, b);
    forall e | e in start && e !in m[a..]
      ensures Became(e, if start[e].slot == s then Settled(c, start[e], until) else Some(start[e]), items - Elems(r), out + r)
    {
      if e in r {
        var j :| 0 <= j < |r| && r[j] == e;
        assert l[a + j] == e;
      } else {
        assert e !in l[a..];
      }
    }
  }

  lemma DrainMove(c: Clock, s: nat, until: int, start: map<Entry, Item>, l: seq<Entry>, items: map<Entry, Item>,
                  out: seq<Entry>, a: nat)
    requires Running(c) && c.now <= until && Draining(c, s, until, start, l, items, out, a, a) && a < |l|
    requires l[a] in items && items[l[a]].rehash && items[l[a]].expires >= until
    ensures var e := l[a];
            var m := Item(SlotOf(c, items[e].expires), items[e].expires, false);
            var w := Without(l, a);
            && (m.slot == s ==> Draining(c, s, until, start, [e] + w, items[e := m], out, a + 1, a + 1)
                                && ([e] + w)[a + 1..] == l[a + 1..])
            && (m.slot != s ==> Draining(c, s, until, start, w, items[e := m], out, a, a) && w[a..] == l[a + 1..])
  {
    var e, w := l[a], Without(l, a);
    var m := Item(SlotOf(c, items[e].expires), items[e].expires, false);
    WithoutIs(l, a);
    assert ([e] + w)[a + 1..] == w[a..];
    MovedOn(c, s, until, start, l, w, items, m, out, a, a);
    MovedOn(c, s, until, start, l, [e] + w, items, m, out, a, a + 1);
  }

  lemma WithoutIs(l: seq<Entry>, a: nat)
    requires Distinct(l) && a < |l|
    ensures var w := Without(l, a); Distinct(w) && Distinct([l[a]] + w) && w[a..] == l[a + 1..]
  {
  }

  /** Draining goes on behind a moved entry, wherever the front of the list now ends. */
  lemma MovedOn(c: Clock, s: nat, until: int, start: map<Entry, Item>, l: seq<Entry>, w: seq<Entry>,
                items: map<Entry, Item>, m: Item, out: seq<Entry>, a: nat, b: nat)
    requires Running(c) && c.now <= until && Draining(c, s, until, start, l, items, out, a, a) && a < |l|
    requires l[a] in items && items[l[a]].rehash && items[l[a]].expires >= until
    requires m == Item(SlotOf(c, items[l[a]].expires), items[l[a]].expires, false)
    requires Distinct(w) && b <= |w| && w[b..] == l[a + 1..]
    ensures Draining(c, s, until, start, w, items[l[a] := m], out, b, b)
  {
  }

  lemma DrainKeep(c: Clock, s: nat, until: int, start: map<Entry, Item>, l: seq<Entry>, items: map<Entry, Item>,
                  out: seq<Entry>, a: nat)
    requires Running(c) && c.now <= until && Draining(c, s, until, start, l, items, out, a, a) && a < |l|
    requires l[a] in items && !items[l[a]].rehash && items[l[a]].expires >= until
    ensures Draining(c, s, until, start, l, items, out, a + 1, a + 1)
  {
  }

  lemma DrainExpire(c: Clock, s: nat, until: int, start: map<Entry, Item>, l: seq<Entry>, items: map<Entry, Item>,
                    out: seq<Entry>, a: nat, b: nat)
    requires Running(c) && c.now <= until && Draining(c, s, until, start, l, items, out, a, b) && b < |l|
    requires l[b] in items && items[l[b]].expires < until
    ensures Draining(c, s, until, start, l, items, out, a, b + 1)
  {
  }

  /** The slots of the times before `t` have been drained. */
  ghost predicate Tracked(c: Clock, start: map<Entry, Item>, items: map<Entry, Item>, out: seq<Entry>, until: int, t: int)
    requires Running(c) && c.now < until
  {
    forall e | e in start ::
      && start[e].slot < c.n
      && Became(e, if Visit(c, start[e].slot) < t then Settled(c, start[e], until) else Some(start[e]), items, out)
  }

  lemma TrackStart(heads: seq<Entry>, lists: seq<seq<Entry>>, at: map<Entry, nat>, c: Clock,
                   start: map<Entry, Item>, until: int)
    requires Running(c) && Book(heads, lists, at) && c.n == |lists|
    requires at.Keys == start.Keys && forall e | e in at :: start[e].slot == at[e]
    ensures c.now < until ==> Tracked(c, start, start, [], until, c.now)
    ensures c.now >= until ==> forall e | e in start :: Became(e, Drained(c, start[e], until), start, [])
  {
  }

  lemma TrackEnd(c: Clock, start: map<Entry, Item>, items: map<Entry, Item>, out: seq<Entry>, until: int)
    requires Running(c) && c.now < until && Tracked(c, start, items, out, until, until)
    ensures forall e | e in start :: Became(e, Drained(c, start[e], until), items, out)
    ensures forall e | e in start :: e in items || e in out
  {
  }

  /** Entry by entry, a drain is the `Get` of the whole wheel. */
  lemma Drains(c: Clock, start: map<Entry, Item>, items: map<Entry, Item>, until: int, out: seq<Entry>)
    requires Running(c) && items.Keys <= start.Keys && forall x | x in out :: x in start && x !in items
    requires forall e | e in start :: Became(e, Drained(c, start[e], until), items, out)
    ensures (Wheel(Advanced(c, until), items), Elems(out)) == Apply(Wheel(c, start), Op.Get(until))
  {
    hide Drained;
    var w := Wheel(c, start);
    forall e | e in start
      ensures e in Elems(out) <==> e in Due(w, until)
      ensures e in items <==> e !in Due(w, until)
    {
      assert Became(e, Drained(c, start[e], until), items, out);
    }
    assert Elems(out) == Due(w, until);
    assert items == Apply(w, Op.Get(until)).0.items;
  }

  lemma TrackStep(c: Clock, start: map<Entry, Item>, items: map<Entry, Item>, after: map<Entry, Item>,
                  outWas: seq<Entry>, out: seq<Entry>, until: int, t: int)
    requires Running(c) && c.now <= t < until && Tracked(c, start, items, outWas, until, t)
    requires SlotDrained(c.(now := t + 1), SlotOf(c, t), until, items, after, out)
    requires after.Keys <= items.Keys && forall x | x in outWas :: x in out
    ensures Tracked(c, start, after, out, until, t + 1)
  {
    var s := SlotOf(c, t);
    forall e | e in start
      ensures Became(e, if Visit(c, start[e].slot) < t + 1 then Settled(c, start[e], until) else Some(start[e]), after, out)
    {
      var v := Visit(c, start[e].slot);
      VisitIs(c, start[e].slot);
      if v > t && start[e].slot == s {
        VisitLeast(c, s, t);
      }
    }
  }

  /** `out` holds `out0` and otherwise entries of the wheel. */
  ghost predicate Grown(out0: seq<Entry>, out: seq<Entry>, start: map<Entry, Item>) {
    (forall x | x in out0 :: x in out) && forall x | x in out :: x in out0 || x in start
  }

  lemma GrownSelf(out: seq<Entry>, start: map<Entry, Item>)
    ensures Grown(out, out, start)
  {
  }

  lemma FirstIs(h: Entry, l: seq<Entry>)
    requires Linked(h, l)
    ensures h.next == At(l, 0)
  {
  }

  lemma NextIs(h: Entry, l: seq<Entry>, j: nat)
    requires Linked(h, l) && j < |l|
    ensures l[j].next == At(l, j + 1)
  {
    assert LinkedAt(h, l, j);
  }

  class Timer {
    const n: nat
    const base: int
    const heads: seq<Entry>
    var now: int
    ghost var lists: seq<seq<Entry>>
    ghost var at: map<Entry, nat>

    ghost function Clk(): Clock
      reads this
    {
      Clock(n, base, now)
    }

    /** Every entry sits in one slot list, and the pointers spell out the lists. */
    ghost predicate Valid()
      reads this, heads, at.Keys
    {
      && Running(Clk()) && |heads| == |lists| == n
      && Book(heads, lists, at)
      && forall i | 0 <= i < n :: Inside(heads, lists, at, i); Linked(heads[i], lists[i])
    }

    ghost function ItemOf(e: Entry): Item
      requires e in at
      reads this, e
    {
      Item(at[e], e.expires, e.rehash)
    }

    ghost function Items(): map<Entry, Item>
      reads this, at.Keys
    {
      map e | e in at :: ItemOf(e)
    }

    /** The wheel as `WheelTime` sees it. */
    ghost function View(): Wheel<Entry>
      reads this, at.Keys
    {
      Wheel(Clk(), Items())
    }

    /** Allocates and clears the slots. */
    constructor (slots: nat, time: int)
      requires slots > 0
      ensures Valid() && fresh(heads) && View() == Wheel(Clock(slots, time, time), map[])
    {
      var hs: seq<Entry> := [];
      while |hs| < slots
        invariant |hs| <= slots && Distinct(hs)
        invariant forall h | h in hs :: fresh(h) && h.next == null
      {
        var h := new Entry(0);
        hs := hs + [h];
      }
      n, base, now, heads := slots, time, time, hs;
      lists, at := seq(slots, _ => []), map[];
      new;
      forall k | 0 <= k < n ensures Linked(heads[k], []) {
        assert heads[k] in heads;
      }
    }

    /** `fast_timer_init` */
    static method Init(slots: int, time: int) returns (result: int, timer: Timer?)
      ensures result == if slots <= 0 || time <= 0 then EINVAL else 0
      ensures (result == 0) == (timer != null)
      ensures timer != null ==> fresh(timer) && timer.Valid() && timer.View() == Wheel(Clock(slots, time, time), map[])
    {
      if slots <= 0 || time <= 0 {
        return EINVAL, null;
      }
      result := 0;
      timer := new Timer(slots, time);
    }

    /** Links an entry at the front of its slot. */
    method LinkIn(e: Entry)
      requires Valid() && e !in at && e !in heads
      modifies this`lists, this`at, heads`next, at.Keys`prev, e`prev, e`next
      ensures Valid() && at == old(at)[e := Added(Clk(), e.expires, e.rehash).slot]
      ensures var s := at[e]; lists == old(lists)[s := [e] + old(lists)[s]]
    {
      hide Book, Linked, Distinct;
      var s := SlotOf(Clock(n, base, now), if e.expires > now then e.expires else now);
      Inside(heads, lists, at, s);
      BookAdd(heads, lists, at, s, e);
      Apart(heads, lists, at, s);
      PushFront(heads[s], e, lists[s]);
      forall k | 0 <= k < n && k != s ensures Linked(heads[k], lists[k]) {
        StillLinked((heads[k], lists[k]));
      }
      lists := lists[s := [e] + lists[s]];
      at := at[e := s];
    }

    /** Takes an entry out of its slot; a detached entry is recognised by its null back pointer. */
    method Detach(e: Entry) returns (result: int)
      requires Valid() && e !in heads && (e in at || e.prev == null)
      modifies this`lists, this`at, heads`next, at.Keys`prev, at.Keys`next
      ensures Valid() && at == old(at) - {e}
      ensures result == if e in old(at) then 0 else ENOENT
      ensures e.prev == null
      ensures forall s, j | 0 <= s < n && 0 <= j < |old(lists)[s]| && old(lists)[s][j] == e ::
                lists == old(lists)[s := Without(old(lists)[s], j)]
    {
      hide Book, Linked, Distinct;
      ghost var s, j := 0, 0;
      if e in at {
        s, j := Find(heads, lists, at, e);
        Inside(heads, lists, at, s);
        HasPrev(heads[s], lists[s], j);
      } else {
        NotListed(heads, lists, at, e);
      }
      if e.prev == null {
        return ENOENT;
      }
      BookRemove(heads, lists, at, s, j);
      Apart(heads, lists, at, s);
      Unlink(e, heads[s], lists[s], j);
      forall k | 0 <= k < n && k != s ensures Linked(heads[k], lists[k]) {
        StillLinked((heads[k], lists[k]));
      }
      lists := lists[s := Without(lists[s], j)];
      at := at - {e};
      result := 0;
    }

    twostate lemma ItemsWith(e: Entry)
      requires e in at && at == old(at)[e := at[e]]
      requires forall x | x in old(at) && x != e :: x.expires == old(x.expires) && x.rehash == old(x.rehash)
      ensures Items() == old(Items())[e := ItemOf(e)]
    {
    }

    /** `fast_timer_add` */
    method Add(e: Entry)
      requires Valid() && e !in at && e !in heads
      modifies this`lists, this`at, heads`next, at.Keys`prev, e`prev, e`next
      ensures Valid() && View() == Apply(old(View()), Op.Add(e, e.expires, e.rehash)).0
    {
      hide Book, Linked, Distinct;
      LinkIn(e);
      ItemsWith(e);
    }

    /** `fast_timer_remove` */
    method Remove(e: Entry) returns (result: int)
      requires Valid() && e !in heads && (e in at || e.prev == null)
      modifies this`lists, this`at, heads`next, at.Keys`prev, at.Keys`next
      ensures Valid() && View() == Apply(old(View()), Op.Remove(e)).0
      ensures result == if e in old(at) then 0 else ENOENT
      ensures e.prev == null
    {
      hide Book, Linked, Distinct;
      result := Detach(e);
      ItemsLess({e});
    }

    /**
      `fast_timer_modify`. A detached entry with an earlier expiry is put into the wheel; with a later
      one it stays out, marked as if it had been in.
     */
    method Modify(e: Entry, expires: int)
      requires Valid() && e !in heads && (e in at || e.prev == null)
      modifies this`lists, this`at, heads`next, at.Keys`prev, at.Keys`next, e`prev, e`next, e`expires, e`rehash
      ensures Valid() && e.expires == expires
      ensures e in old(at) ==> View() == Apply(old(View()), Op.Modify(e, expires)).0
      ensures e !in old(at) ==>
                View() == if expires < old(e.expires) then Apply(old(View()), Op.Add(e, expires, e.rehash)).0
                          else old(View())
      ensures e !in old(at) ==>
                e.rehash == if expires > old(e.expires) then Rem(expires - base, n) != Rem(old(e.expires) - base, n)
                            else old(e.rehash)
    {
      hide Book, Linked, Distinct;
      NotHeads(heads, lists, at);
      if expires == e.expires {
        if e in at {
          ItemsWith(e);
        }
        return;
      }
      if expires < e.expires {
        var _ := Detach(e);
        e.expires := expires;
        LinkIn(e);
        ItemsWith(e);
      } else {
        e.rehash := Rem(expires - base, n) != Rem(e.expires - base, n);
        e.expires := expires;
        StillValid();
        if e in at {
          ItemsWith(e);
        }
      }
    }

    /** Takes the expired run from `a` to `b` out of slot `s` and hangs it at the end of the result list. */
    method Release(ghost s: nat, first: Entry, tail: Entry, entry: Entry?, ghost head: Entry, ghost out: seq<Entry>,
                   ghost a: nat, ghost b: nat)
      requires Valid() && s < n && a < b <= |lists[s]| && first == lists[s][a] && entry == At(lists[s], b)
      requires Open(head, out) && Distinct(out) && tail == Before(head, out, |out|) && Outside(head, out)
      modifies this`lists, this`at, heads`next, at.Keys`prev, at.Keys`next, head`next, out`next
      ensures Items() == old(Items()) - Elems(old(lists)[s][a..b])
      ensures var l := old(lists)[s];
              && Valid() && lists == old(lists)[s := l[..a] + l[b..]] && at == old(at) - Elems(l[a..b])
              && Open(head, out + l[a..b]) && Distinct(out + l[a..b]) && Outside(head, out + l[a..b])
    {
      hide Book, Linked, Distinct, Open;
      ghost var l := lists[s];
      Inside(heads, lists, at, s);
      BookRelease(heads, lists, at, s, a, b);
      Apart(heads, lists, at, s);
      assert forall k | 0 <= k < n :: heads[k] in heads;
      Splice(first, tail, entry, heads[s], l, a, b, head, out);
      forall k | 0 <= k < n && k != s ensures Linked(heads[k], lists[k]) {
        StillLinked((heads[k], lists[k]));
      }
      lists := lists[s := l[..a] + l[b..]];
      at := at - Elems(l[a..b]);
      ItemsLess(Elems(l[a..b]));
    }

    twostate lemma ItemsLess(gone: set<Entry>)
      requires at == old(at) - gone
      requires forall e | e in at :: e.expires == old(e.expires) && e.rehash == old(e.rehash)
      ensures Items() == old(Items()) - gone
    {
    }

    /** The sentinel of the result and what hangs off it are apart from the wheel. */
    ghost predicate Outside(head: Entry, out: seq<Entry>)
      reads this
    {
      head !in at && head !in heads && head !in out && forall x | x in out :: x !in at && x !in heads
    }

    /** Out of one slot list and into the one its time belongs to. */
    method Relink(e: Entry, ghost s: nat, ghost j: nat)
      requires Valid() && e in at && s == at[e] < n && j < |lists[s]| && lists[s][j] == e
      modifies this`lists, this`at, heads`next, at.Keys`prev, at.Keys`next
      ensures Valid() && at == old(at)[e := Added(Clk(), e.expires, e.rehash).slot]
      ensures var l := Without(old(lists)[s], j); lists[s] == if at[e] == s then [e] + l else l
    {
      hide Book, Linked, Distinct, Without, Rem, Added;
      NotHeads(heads, lists, at);
      var _ := Detach(e);
      assert lists == old(lists)[s := Without(old(lists)[s], j)];
      LinkIn(e);
    }

    /** The lazy move of a flagged entry met while draining. */
    method Move(e: Entry, ghost j: nat)
      requires Valid() && e in at && e.expires >= now
      requires at[e] < n && j < |lists[at[e]]| && lists[at[e]][j] == e
      modifies this`lists, this`at, heads`next, at.Keys`prev, at.Keys`next, e`rehash
      ensures Valid() && at.Keys == old(at.Keys)
      ensures Items() == old(Items())[e := Item(SlotOf(Clk(), e.expires), e.expires, false)]
      ensures var l := Without(old(lists)[old(at[e])], j);
              lists[old(at[e])] == if at[e] == old(at[e]) then [e] + l else l
    {
      hide Book, Linked, Distinct, Without, Rem;
      NotHeads(heads, lists, at);
      e.rehash := false;
      StillValid();
      Relink(e, at[e], j);
      ItemsWith(e);
    }

    /** The result list so far, and its last element. */
    ghost predicate Result(head: Entry, out: seq<Entry>, tail: Entry)
      reads this, head, out
    {
      Open(head, out) && Distinct(out) && tail == Before(head, out, |out|) && Outside(head, out)
    }

    ghost predicate DrainingSlot(s: nat, until: int, start: map<Entry, Item>, out: seq<Entry>, a: nat, b: nat)
      reads this, at.Keys
    {
      && Running(Clk()) && now <= until && s < |lists| && a <= b <= |lists[s]| && at.Keys <= start.Keys
      && Draining(Clk(), s, until, start, lists[s], Items(), out, a, b)
    }

    method ReleaseRun(ghost s: nat, ghost until: int, first: Entry, last: Entry, tail0: Entry, entry: Entry?,
                      ghost head: Entry, ghost start: map<Entry, Item>, ghost out0: seq<Entry>,
                      ghost out1: seq<Entry>, ghost a: nat, ghost b: nat)
      returns (tail: Entry, ghost out: seq<Entry>)
      requires Valid() && DrainingSlot(s, until, start, out1, a, b) && Result(head, out1, tail0) && Grown(out0, out1, start)
      requires a < b && first == lists[s][a] && last == lists[s][b - 1] && entry == At(lists[s], b)
      modifies this`lists, this`at, heads`next, start.Keys`prev, start.Keys`next, head`next, out0`next
      ensures Valid() && DrainingSlot(s, until, start, out, a, a) && Result(head, out, tail)
      ensures Grown(out0, out, start) && |out| == |out1| + (b - a)
      ensures At(lists[s], a) == entry && |lists[s]| == |old(lists)[s]| - (b - a)
    {
      hide Book, Linked, Distinct, Open, Draining, Became;
      ghost var l := lists[s];
      DrainRelease(Clk(), s, until, start, l, Items(), out1, a, b);
      Release(s, first, tail0, entry, head, out1, a, b);
      out, tail := out1 + l[a..b], last;
    }

    method MoveOn(ghost s: nat, ghost until: int, e: Entry, ghost head: Entry, ghost start: map<Entry, Item>,
                  ghost out: seq<Entry>, ghost tail: Entry, ghost a: nat)
      returns (ghost b: nat)
      requires Valid() && DrainingSlot(s, until, start, out, a, a) && Result(head, out, tail)
      requires s < n && a < |lists[s]| && lists[s][a] == e && e.rehash && e.expires >= until
      modifies this`lists, this`at, heads`next, start.Keys`prev, start.Keys`next, start.Keys`rehash
      ensures Valid() && DrainingSlot(s, until, start, out, b, b) && Result(head, out, tail)
      ensures At(lists[s], b) == At(old(lists)[s], a + 1) && |lists[s]| - b == |old(lists)[s]| - (a + 1)
    {
      hide Book, Linked, Distinct, Open, Draining, Became;
      DrainBounds(Clk(), s, until, start, lists[s], Items(), out, a, a);
      DrainMove(Clk(), s, until, start, lists[s], Items(), out, a);
      Move(e, a);
      StillOpen((head, out));
      b := if at[e] == s then a + 1 else a;
      assert lists[s][b..] == old(lists)[s][a + 1..];
    }

    lemma StartSlot(s: nat, until: int, out: seq<Entry>)
      requires Valid() && s < n && now <= until
      ensures DrainingSlot(s, until, Items(), out, 0, 0)
    {
      DrainStart(heads, lists, at, Clk(), s, until, Items(), out);
    }

    lemma KeepOne(s: nat, until: int, e: Entry, start: map<Entry, Item>, out: seq<Entry>, a: nat)
      requires Valid() && DrainingSlot(s, until, start, out, a, a) && s < n && a < |lists[s]| && lists[s][a] == e
      requires !e.rehash && e.expires >= until
      ensures DrainingSlot(s, until, start, out, a + 1, a + 1) && e.next == At(lists[s], a + 1)
    {
      hide Draining, Linked;
      DrainBounds(Clk(), s, until, start, lists[s], Items(), out, a, a);
      DrainKeep(Clk(), s, until, start, lists[s], Items(), out, a);
      NextIs(heads[s], lists[s], a);
    }

    lemma ExpireOne(s: nat, until: int, e: Entry, start: map<Entry, Item>, out: seq<Entry>, a: nat, b: nat)
      requires Valid() && DrainingSlot(s, until, start, out, a, b) && s < n && b < |lists[s]| && lists[s][b] == e
      requires e.expires < until
      ensures DrainingSlot(s, until, start, out, a, b + 1) && e.next == At(lists[s], b + 1)
    {
      hide Draining, Linked;
      DrainBounds(Clk(), s, until, start, lists[s], Items(), out, a, b);
      DrainExpire(Clk(), s, until, start, lists[s], Items(), out, a, b);
      NextIs(heads[s], lists[s], b);
    }

    lemma EndSlot(s: nat, until: int, start: map<Entry, Item>, out: seq<Entry>, a: nat)
      requires Valid() && DrainingSlot(s, until, start, out, a, a) && a == |lists[s]|
      ensures SlotDrained(Clk(), s, until, start, Items(), out) && at.Keys <= start.Keys
    {
    }

    /** The inner loop: drains one slot. */
    method DrainSlot(s: nat, until: int, head: Entry, tail0: Entry, ghost out0: seq<Entry>)
      returns (tail: Entry, count: nat, ghost out: seq<Entry>)
      requires Valid() && s < n && now <= until && Result(head, out0, tail0)
      modifies this`lists, this`at, heads`next, at.Keys`prev, at.Keys`next, at.Keys`rehash, head`next, out0`next
      ensures Valid() && at.Keys <= old(at.Keys) && Result(head, out, tail)
      ensures |out| == |out0| + count && Grown(out0, out, old(Items()))
      ensures SlotDrained(Clk(), s, until, old(Items()), Items(), out)
    {
      hide Book, Linked, Distinct, Open, Draining, DrainingSlot, Became, Outside, SlotDrained, Result, Grown;
      ghost var start := Items();
      ghost var a: nat, b: nat := 0, 0;
      tail, count, out := tail0, 0, out0;
      var first: Entry?, last: Entry? := null, null;
      var entry := heads[s].next;
      FirstIs(heads[s], lists[s]);
      StartSlot(s, until, out);
      GrownSelf(out, start);
      while entry != null
        invariant Valid() && DrainingSlot(s, until, start, out, a, b) && Result(head, out, tail)
        invariant now == old(now) && a <= b <= |lists[s]|
        invariant entry == At(lists[s], b) && (first == null <==> a == b)
        invariant a < b ==> first == lists[s][a] && last == lists[s][b - 1]
        invariant |out| + (b - a) == |out0| + count && Grown(out0, out, start)
        decreases |lists[s]| - b
      {
        if entry.expires >= until {
          if first != null {
            tail, out := ReleaseRun(s, until, first, last, tail, entry, head, start, out0, out, a, b);
            first, b := null, a;
          }
          if entry.rehash {
            last := entry;
            NextIs(heads[s], lists[s], a);
            entry := entry.next;
            a := MoveOn(s, until, last, head, start, out, tail, a);
            b := a;
            continue;
          }
          KeepOne(s, until, entry, start, out, a);
          a := a + 1;
        } else {
          ExpireOne(s, until, entry, start, out, a, b);
          count := count + 1;
          if first == null {
            first := entry;
          }
        }
        last := entry;
        entry := entry.next;
        b := b + 1;
      }
      if first != null {
        tail, out := ReleaseRun(s, until, first, last, tail, null, head, start, out0, out, a, b);
      }
      EndSlot(s, until, start, out, a);
    }

    method Tick(ghost head: Entry, ghost out: seq<Entry>, ghost tail: Entry)
      requires Valid() && Result(head, out, tail)
      modifies this`now
      ensures now == old(now) + 1 && Valid() && Result(head, out, tail) && Items() == old(Items())
    {
      hide Book, Linked, Distinct, Open;
      now := now + 1;
      StillValid();
      StillResult((head, out, tail));
    }

    /** One time further, draining the slot of the time that is over. */
    method Advance(until: int, head: Entry, tail0: Entry, ghost out0: seq<Entry>, ghost c: Clock,
                   ghost start: map<Entry, Item>)
      returns (tail: Entry, count: nat, ghost out: seq<Entry>)
      requires Valid() && now < until && Result(head, out0, tail0) && Clk() == c.(now := now) && c.now <= now
      requires Running(c) && at.Keys <= start.Keys && Tracked(c, start, Items(), out0, until, now)
      requires forall x | x in out0 :: x in start
      modifies this`now, this`lists, this`at, heads`next, at.Keys`prev, at.Keys`next, at.Keys`rehash, head`next, out0`next
      ensures Valid() && now == old(now) + 1 && Result(head, out, tail) && |out| == |out0| + count
      ensures at.Keys <= old(at.Keys) && Tracked(c, start, Items(), out, until, now)
      ensures forall x | x in out :: x in start
    {
      hide Book, Linked, Distinct, Open, Became, Outside, SlotDrained, Tracked, Result;
      var s := SlotOf(Clock(n, base, now), now);
      ghost var items := Items();
      Tick(head, out0, tail0);
      tail, count, out := DrainSlot(s, until, head, tail0, out0);
      TrackStep(c, start, items, Items(), out0, out, until, now - 1);
    }

    /** The outer loop: drains the slots of all times up to `until`. */
    method Walk(until: int, head: Entry) returns (tail: Entry, count: nat, ghost out: seq<Entry>)
      requires Valid() && now < until && Result(head, [], head)
      modifies this`now, this`lists, this`at, heads`next, at.Keys`prev, at.Keys`next, at.Keys`rehash, head`next
      ensures Valid() && Clk() == Advanced(old(Clk()), until) && Result(head, out, tail) && count == |out|
      ensures at.Keys <= old(at.Keys) && forall x | x in out :: x in old(at)
      ensures Tracked(old(Clk()), old(Items()), Items(), out, until, until)
    {
      hide Book, Linked, Distinct, Open, Became, Outside, SlotDrained, Tracked, Result;
      ghost var c, start := Clk(), Items();
      TrackStart(heads, lists, at, c, start, until);
      tail, count, out := head, 0, [];
      while now < until
        invariant Valid() && Result(head, out, tail) && Clk() == c.(now := now) && c.now <= now <= until
        invariant count == |out| && at.Keys <= start.Keys
        invariant Tracked(c, start, Items(), out, until, now)
        invariant forall x | x in out :: x in start
      {
        var more;
        tail, more, out := Advance(until, head, tail, out, c, start);
        count := count + more;
      }
    }

    /**
      `fast_timer_timeouts_get`: walks the slots from the wheel's time up to `until`. Each entry is
      handed out, moved or left as `Drained` says; the entries handed out hang off `head`, once each.
     */
    method Timeouts(until: int, head: Entry) returns (count: nat, ghost out: seq<Entry>)
      requires Valid() && head !in at && head !in heads
      modifies this, heads`next, at.Keys`prev, at.Keys`next, at.Keys`rehash, head`prev, head`next
      ensures Valid() && Clk() == Advanced(old(Clk()), until)
      ensures count == |out| && Linked(head, out) && Distinct(out) && Outside(head, out)
      ensures (View(), Elems(out)) == Apply(old(View()), Op.Get(until))
    {
      hide Book, Linked, Distinct, Open, Became, Tracked, Drained, Apply;
      ClearHead(head);
      count, out := 0, [];
      ghost var c, start := Clk(), Items();
      if now >= until {
        TrackStart(heads, lists, at, c, start, until);
        Drains(c, start, start, until, []);
        return;
      }
      var tail;
      tail, count, out := Walk(until, head);
      TrackEnd(c, start, Items(), out, until);
      Drains(c, start, Items(), until, out);
      if count > 0 {
        Close(tail, head, out);
      } else {
        Nothing(head);
      }
    }

    /** The result list, empty. */
    method ClearHead(head: Entry)
      requires Valid() && head !in at && head !in heads
      modifies head`prev, head`next
      ensures Valid() && Items() == old(Items()) && Result(head, [], head) && Linked(head, []) && head.prev == null
    {
      hide Book, Linked, Distinct, Open;
      head.prev := null;
      head.next := null;
      StillValid();
      EmptyResult(head);
    }

    method Close(tail: Entry, ghost head: Entry, ghost out: seq<Entry>)
      requires Valid() && Result(head, out, tail) && out != []
      modifies tail`next
      ensures Valid() && Linked(head, out)
    {
      hide Book, Linked, Distinct, Open;
      tail.next := null;
      StillValid();
      Closed((head, out));
    }

    /** The wheel does not depend on anything but its own pointers. */
    twostate lemma StillValid()
      requires Running(Clk()) && lists == old(lists) && at == old(at)
      requires forall e | e in at :: e.prev == old(e.prev) && e.next == old(e.next)
      requires forall k | 0 <= k < |heads| :: heads[k].next == old(heads[k].next)
      ensures old(Valid()) ==> Valid()
    {
      hide Linked, Distinct;
      forall k | old(Valid()) && 0 <= k < n ensures Linked(heads[k], lists[k]) {
        Inside(heads, lists, at, k);
        StillLinked((heads[k], lists[k]));
      }
    }

    twostate lemma StillResult(result: (Entry, seq<Entry>, Entry))
      requires lists == old(lists) && at == old(at) && result.0.next == old(result.0.next)
      requires forall x | x in result.1 :: x.prev == old(x.prev) && x.next == old(x.next)
      ensures old(Result(result.0, result.1, result.2)) ==> Result(result.0, result.1, result.2)
    {
      StillOpen((result.0, result.1));
    }
  }
}
