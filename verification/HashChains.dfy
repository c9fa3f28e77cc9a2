/** Bucket arrays of chained nodes, as values: what the hash table's methods are proved against. */
module HashChains {
  import opened Bytes

  type Key = seq<Byte>
  type Value = seq<Byte>

  /** `HashData`: the value occupies the first part of `size` allocated bytes. */
  datatype Node = Node(key: Key, value: Value, size: nat)

  type HashFunc = Key -> nat

  const NODE_BYTES: nat := 32  // sizeof(HashData)
  const SLOT_BYTES: nat := 8

  function NodeBytes(n: Node): nat { NODE_BYTES + |n.key| + n.size }

  /** `MEM_ALIGN` */
  function Align(n: nat): (r: nat)
    ensures n <= r < n + 8 && r % 8 == 0
  {
    (n + 7) / 8 * 8
  }

  // ---------- chains ----------

  function Lookup(c: seq<Node>, k: Key): (r: Option<Node>)
    ensures r.Some? ==> r.value in c && r.value.key == k
    ensures r.None? ==> forall n :: n in c ==> n.key != k
    decreases |c|
  {
    if c == [] then None else if c[0].key == k then Some(c[0]) else Lookup(c[1..], k)
  }

  predicate Distinct(c: seq<Node>) {
    forall i, j :: 0 <= i < j < |c| ==> c[i].key != c[j].key
  }

  function Footprint(c: seq<Node>): (n: nat)
    decreases |c|
  {
    if c == [] then 0 else NodeBytes(c[0]) + Footprint(c[1..])
  }

  /** The finite map a list of nodes stands for. */
  function ToMap(c: seq<Node>): (m: map<Key, Value>)
    decreases |c|
  {
    if c == [] then map[] else ToMap(c[1..])[c[0].key := c[0].value]
  }

  lemma {:induction false} MapIsLookup(c: seq<Node>, k: Key)
    ensures k in ToMap(c) <==> Lookup(c, k).Some?
    ensures k in ToMap(c) ==> ToMap(c)[k] == Lookup(c, k).value.value
    decreases |c|
  {
    if c != [] {
      MapIsLookup(c[1..], k);
    }
  }

  lemma {:induction false} LookupConcat(a: seq<Node>, b: seq<Node>, k: Key)
    ensures Lookup(a + b, k) == if Lookup(a, k).Some? then Lookup(a, k) else Lookup(b, k)
    decreases |a|
  {
    if a == [] {
      assert a + b == b;
    } else {
      LookupConcat(a[1..], b, k);
      assert (a + b)[1..] == a[1..] + b;
    }
  }

  lemma {:induction false} FootprintConcat(a: seq<Node>, b: seq<Node>)
    ensures Footprint(a + b) == Footprint(a) + Footprint(b)
    decreases |a|
  {
    if a == [] {
      assert a + b == b;
    } else {
      FootprintConcat(a[1..], b);
      assert (a + b)[1..] == a[1..] + b;
    }
  }

  // ---------- tables ----------

  type Table = seq<seq<Node>>

  function Flatten(t: Table): (c: seq<Node>)
    decreases |t|
  {
    if t == [] then [] else t[0] + Flatten(t[1..])
  }

  function Bucket(h: HashFunc, t: Table, k: Key): (b: nat)
    requires t != []
    ensures b < |t|
  {
    h(k) % |t|
  }

  predicate Fits(n: Node) { |n.value| <= n.size }

  /**
    Every node is in the bucket its hash selects, no bucket holds a key twice, and no value is
    longer than its allocation.
   */
  ghost predicate Placed(h: HashFunc, t: Table) {
    && t != []
    && (forall b :: 0 <= b < |t| ==> Distinct(t[b]))
    && (forall b, i :: 0 <= b < |t| && 0 <= i < |t[b]| ==> Bucket(h, t, t[b][i].key) == b && Fits(t[b][i]))
  }

  lemma {:induction false} FlattenConcat(s: Table, t: Table)
    ensures Flatten(s + t) == Flatten(s) + Flatten(t)
    decreases |s|
  {
    if s == [] {
      assert s + t == t;
    } else {
      FlattenConcat(s[1..], t);
      assert (s + t)[1..] == s[1..] + t;
    }
  }

  /** One bucket in its surroundings. */
  lemma FlattenAt(t: Table, b: nat)
    requires b < |t|
    ensures Flatten(t) == Flatten(t[..b]) + t[b] + Flatten(t[b + 1..])
  {
    hide Flatten;
    FlattenConcat(t[..b], t[b..]);
    assert t[..b] + t[b..] == t;
    assert t[b..][1..] == t[b + 1..];
    FlattenFirst(t[b..]);
  }

  lemma FlattenFirst(t: Table)
    requires t != []
    ensures Flatten(t) == t[0] + Flatten(t[1..])
  {
  }

  lemma {:induction false} FlattenMember(t: Table, n: Node)
    requires n in Flatten(t)
    ensures exists b :: 0 <= b < |t| && n in t[b]
    decreases |t|
  {
    if n in t[0] {
    } else {
      FlattenMember(t[1..], n);
      var b :| 0 <= b < |t[1..]| && n in t[1..][b];
      assert n in t[b + 1];
    }
  }

  /** The whole table knows a key exactly as its bucket does. */
  lemma LookupBucket(h: HashFunc, t: Table, k: Key)
    requires Placed(h, t)
    ensures Lookup(Flatten(t), k) == Lookup(t[Bucket(h, t, k)], k)
  {
    hide Flatten, Footprint;
    var b := Bucket(h, t, k);
    var left, right := Flatten(t[..b]), Flatten(t[b + 1..]);
    FlattenAt(t, b);
    LookupConcat(left + t[b], right, k);
    LookupConcat(left, t[b], k);
    PlacedPart(h, t, 0, b);
    PlacedPart(h, t, b + 1, |t|);
    assert t[0..b] == t[..b] && t[b + 1..|t|] == t[b + 1..];
  }

  /** The keys of a stretch of buckets hash into that stretch. */
  lemma PlacedPart(h: HashFunc, t: Table, lo: nat, hi: nat)
    requires Placed(h, t) && lo <= hi <= |t|
    ensures forall n | n in Flatten(t[lo..hi]) :: lo <= Bucket(h, t, n.key) < hi
  {
    hide Flatten, Footprint;
    forall n | n in Flatten(t[lo..hi]) ensures lo <= Bucket(h, t, n.key) < hi {
      FlattenMember(t[lo..hi], n);
      var c :| 0 <= c < hi - lo && n in t[lo..hi][c];
      var i :| 0 <= i < |t[lo + c]| && t[lo + c][i] == n;
      assert Bucket(h, t, t[lo + c][i].key) == lo + c;
    }
  }

  /** Replacing one bucket changes the counts by that bucket's difference. */
  lemma FlattenUpdate(t: Table, b: nat, c: seq<Node>)
    requires b < |t|
    ensures |Flatten(t[b := c])| == |Flatten(t)| - |t[b]| + |c|
    ensures Footprint(Flatten(t[b := c])) == Footprint(Flatten(t)) - Footprint(t[b]) + Footprint(c)
  {
    hide Flatten, Footprint;
    var u := t[b := c];
    var left, right := Flatten(t[..b]), Flatten(t[b + 1..]);
    FlattenAt(t, b);
    FlattenAt(u, b);
    assert u[..b] == t[..b] && u[b + 1..] == t[b + 1..];
    FootprintConcat(left + t[b], right);
    FootprintConcat(left, t[b]);
    FootprintConcat(left + c, right);
    FootprintConcat(left, c);
  }

  /** A key of another bucket is not affected. */
  lemma LookupUpdate(h: HashFunc, t: Table, b: nat, c: seq<Node>, k: Key)
    requires Placed(h, t) && b < |t| && Placed(h, t[b := c])
    ensures Lookup(Flatten(t[b := c]), k)
         == if Bucket(h, t, k) == b then Lookup(c, k) else Lookup(Flatten(t), k)
  {
    hide Flatten;
    LookupBucket(h, t, k);
    LookupBucket(h, t[b := c], k);
  }

  // ---------- the updates ----------

  function View(t: Table): map<Key, Value> { ToMap(Flatten(t)) }

  function RemoveAt(c: seq<Node>, i: nat): seq<Node>
    requires i < |c|
  {
    c[..i] + c[i + 1..]
  }

  lemma LookupAt(c: seq<Node>, i: nat)
    requires Distinct(c) && i < |c|
    ensures Lookup(c, c[i].key) == Some(c[i])
  {
  }

  lemma LookupRemove(c: seq<Node>, i: nat, k: Key)
    requires Distinct(c) && i < |c|
    ensures Lookup(RemoveAt(c, i), k) == if k == c[i].key then None else Lookup(c, k)
  {
  }

  lemma LookupOne(n: Node, k: Key)
    ensures Lookup([n], k) == if n.key == k then Some(n) else None
  {
  }

  lemma FootprintRemove(c: seq<Node>, i: nat)
    requires i < |c|
    ensures Footprint(RemoveAt(c, i)) == Footprint(c) - NodeBytes(c[i])
  {
    FootprintConcat(c[..i], c[i + 1..]);
    FootprintConcat(c[..i], c[i..]);
    assert c[..i] + c[i..] == c && c[i..][1..] == c[i + 1..];
  }

  /** `DELETE_FROM_BUCKET`: exactly that key goes, with its count and its bytes. */
  lemma RemoveNode(h: HashFunc, t: Table, b: nat, i: nat)
    requires Placed(h, t) && b < |t| && i < |t[b]|
    ensures var u := t[b := RemoveAt(t[b], i)];
            && Placed(h, u) && View(u) == View(t) - {t[b][i].key}
            && |Flatten(u)| == |Flatten(t)| - 1
            && Footprint(Flatten(u)) == Footprint(Flatten(t)) - NodeBytes(t[b][i])
  {
    hide Flatten, Footprint, ToMap, Lookup;
    var c := RemoveAt(t[b], i);
    var u := t[b := c];
    assert Placed(h, u);
    FlattenUpdate(t, b, c);
    FootprintRemove(t[b], i);
    forall k
      ensures Lookup(Flatten(u), k) == if k == t[b][i].key then None else Lookup(Flatten(t), k)
    {
      LookupUpdate(h, t, b, c, k);
      LookupRemove(t[b], i, k);
      LookupBucket(h, t, k);
    }
    SameViews(Flatten(u), ToMap(Flatten(t)) - {t[b][i].key}, Flatten(t), t[b][i].key, None);
  }

  /** Two node lists that differ in one key stand for maps that differ in one key. */
  lemma SameViews(d: seq<Node>, m: map<Key, Value>, c: seq<Node>, key: Key, v: Option<Value>)
    requires m == match v case None => ToMap(c) - {key} case Some(x) => ToMap(c)[key := x]
    requires forall k :: k != key ==> ToOption(Lookup(d, k)) == ToOption(Lookup(c, k))
    requires ToOption(Lookup(d, key)) == v
    ensures ToMap(d) == m
  {
    hide ToMap, Lookup;
    forall k
      ensures k in ToMap(d) <==> k in m
      ensures k in m ==> ToMap(d)[k] == m[k]
    {
      MapIsLookup(d, k);
      MapIsLookup(c, k);
    }
  }

  function ToOption(n: Option<Node>): Option<Value> {
    match n case None => None case Some(x) => Some(x.value)
  }

  /** The value of an existing node replaced within its allocation. */
  lemma SetNode(h: HashFunc, t: Table, b: nat, i: nat, v: Value)
    requires Placed(h, t) && b < |t| && i < |t[b]| && |v| <= t[b][i].size
    ensures var u := t[b := t[b][i := t[b][i].(value := v)]];
            && Placed(h, u) && View(u) == View(t)[t[b][i].key := v]
            && |Flatten(u)| == |Flatten(t)|
            && Footprint(Flatten(u)) == Footprint(Flatten(t))
  {
    hide Flatten, Footprint, ToMap, Lookup;
    var key := t[b][i].key;
    var c := t[b][i := t[b][i].(value := v)];
    var u := t[b := c];
    assert Placed(h, u);
    FlattenUpdate(t, b, c);
    FootprintSame(t[b], c);
    forall k
      ensures k != key ==> Lookup(Flatten(u), k) == Lookup(Flatten(t), k)
      ensures ToOption(Lookup(Flatten(u), key)) == Some(v)
    {
      LookupUpdate(h, t, b, c, k);
      LookupUpdate(h, t, b, c, key);
      LookupBucket(h, t, k);
      LookupAt(c, i);
      if k != key {
        LookupSet(t[b], c, i, k);
      }
    }
    SameViews(Flatten(u), ToMap(Flatten(t))[key := v], Flatten(t), key, Some(v));
  }

  lemma {:induction false} FootprintSame(c: seq<Node>, d: seq<Node>)
    requires |c| == |d| && forall i :: 0 <= i < |c| ==> NodeBytes(c[i]) == NodeBytes(d[i])
    ensures Footprint(c) == Footprint(d)
    decreases |c|
  {
    hide NodeBytes;
    if c != [] {
      FootprintSame(c[1..], d[1..]);
    }
  }

  lemma LookupSet(c: seq<Node>, d: seq<Node>, i: nat, k: Key)
    requires i < |c| == |d| && d == c[i := d[i]] && d[i].key == c[i].key && k != c[i].key
    ensures Lookup(d, k) == Lookup(c, k)
  {
    hide Lookup;
    LookupConcat(c[..i], c[i..], k);
    LookupConcat([c[i]], c[i + 1..], k);
    LookupConcat(d[..i], d[i..], k);
    LookupConcat([d[i]], d[i + 1..], k);
    assert c[..i] + c[i..] == c && [c[i]] + c[i + 1..] == c[i..];
    assert d[..i] + d[i..] == d && [d[i]] + d[i + 1..] == d[i..];
    assert d[..i] == c[..i] && d[i + 1..] == c[i + 1..];
    LookupOne(c[i], k);
    LookupOne(d[i], k);
  }

  function Add(h: HashFunc, t: Table, n: Node): (u: Table)
    requires t != []
    ensures |u| == |t|
  {
    var b := Bucket(h, t, n.key);
    t[b := [n] + t[b]]
  }

  /** `ADD_TO_BUCKET` of a key not yet in the table. */
  lemma AddNode(h: HashFunc, t: Table, n: Node)
    requires Placed(h, t) && n.key !in View(t) && Fits(n)
    ensures var u := Add(h, t, n);
            && Placed(h, u) && View(u) == View(t)[n.key := n.value]
            && |Flatten(u)| == |Flatten(t)| + 1
            && Footprint(Flatten(u)) == Footprint(Flatten(t)) + NodeBytes(n)
  {
    hide Flatten, ToMap, Lookup;
    var b := Bucket(h, t, n.key);
    var c := [n] + t[b];
    var u := t[b := c];
    MapIsLookup(Flatten(t), n.key);
    LookupBucket(h, t, n.key);
    assert c[1..] == t[b];
    assert Placed(h, u);
    FlattenUpdate(t, b, c);
    forall k
      ensures Lookup(Flatten(u), k) == if k == n.key then Some(n) else Lookup(Flatten(t), k)
    {
      LookupUpdate(h, t, b, c, k);
      LookupBucket(h, t, k);
      LookupConcat([n], t[b], k);
      LookupOne(n, k);
    }
    SameViews(Flatten(u), ToMap(Flatten(t))[n.key := n.value], Flatten(t), n.key, Some(n.value));
  }

  // ---------- rehashing ----------

  function AddAll(h: HashFunc, t: Table, c: seq<Node>): (u: Table)
    requires t != []
    ensures |u| == |t|
    decreases |c|
  {
    if c == [] then t else AddAll(h, Add(h, t, c[0]), c[1..])
  }

  ghost predicate AllNew(c: seq<Node>, m: map<Key, Value>) {
    Distinct(c) && forall n :: n in c ==> n.key !in m && Fits(n)
  }

  lemma {:induction false} AddAllNodes(h: HashFunc, t: Table, c: seq<Node>)
    requires Placed(h, t) && AllNew(c, View(t))
    ensures var u := AddAll(h, t, c);
            && Placed(h, u) && View(u) == View(t) + ToMap(c)
            && |Flatten(u)| == |Flatten(t)| + |c|
            && Footprint(Flatten(u)) == Footprint(Flatten(t)) + Footprint(c)
    decreases |c|
  {
    hide Placed, Flatten, Add, Footprint, ToMap;
    NoNodes();
    if c != [] {
      FirstNode(c);
      AddNode(h, t, c[0]);
      var t' := Add(h, t, c[0]);
      TailKeys(c);
      AddAllNodes(h, t', c[1..]);
      assert View(t)[c[0].key := c[0].value] + ToMap(c[1..]) == View(t) + ToMap(c);
    }
  }

  lemma NoNodes()
    ensures Footprint([]) == 0 && ToMap([]) == map[]
  {
  }

  lemma FirstNode(c: seq<Node>)
    requires c != []
    ensures Footprint(c) == NodeBytes(c[0]) + Footprint(c[1..])
    ensures ToMap(c) == ToMap(c[1..])[c[0].key := c[0].value]
  {
  }

  lemma TailKeys(c: seq<Node>)
    requires c != [] && Distinct(c)
    ensures c[0].key !in ToMap(c[1..])
  {
    MapIsLookup(c[1..], c[0].key);
  }

  lemma {:induction false} FlattenDistinct(h: HashFunc, t: Table, m: nat)
    requires Placed(h, t) && m <= |t|
    ensures Distinct(Flatten(t[m..])) && forall n :: n in Flatten(t[m..]) ==> Fits(n)
    decreases |t| - m
  {
    if m < |t| {
      FlattenDistinct(h, t, m + 1);
      assert t[m..][1..] == t[m + 1..];
      var rest := Flatten(t[m + 1..]);
      forall i, j | 0 <= i < |t[m]| && 0 <= j < |rest| ensures t[m][i].key != rest[j].key {
        FlattenMember(t[m + 1..], rest[j]);
        var c :| 0 <= c < |t[m + 1..]| && rest[j] in t[m + 1..][c];
        var l :| 0 <= l < |t[c + m + 1]| && t[c + m + 1][l] == rest[j];
        assert Bucket(h, t, t[c + m + 1][l].key) == c + m + 1;
        assert Bucket(h, t, t[m][i].key) == m;
      }
    }
  }

  function Empty(n: nat): (t: Table)
    ensures |t| == n
  {
    seq(n, _ => [])
  }

  lemma {:induction false} EmptyTable(h: HashFunc, n: nat)
    ensures Flatten(Empty(n)) == []
    ensures n > 0 ==> Placed(h, Empty(n))
    decreases n
  {
    if n > 0 {
      EmptyTable(h, n - 1);
      assert Empty(n)[1..] == Empty(n - 1);
    }
  }

  /** Moving every node into a bucket array of another size changes nothing but the places. */
  lemma RehashKeeps(h: HashFunc, t: Table, n: nat)
    requires Placed(h, t) && n > 0
    ensures var u := AddAll(h, Empty(n), Flatten(t));
            && Placed(h, u) && View(u) == View(t)
            && |Flatten(u)| == |Flatten(t)| && Footprint(Flatten(u)) == Footprint(Flatten(t))
  {
    hide Placed, Flatten, AddAll;
    EmptyTable(h, n);
    FlattenDistinct(h, t, 0);
    assert t[0..] == t;
    AddAllNodes(h, Empty(n), Flatten(t));
  }

  // ---------- what the bytes are ----------

  function KeyBytes(c: seq<Node>): (n: nat)
    decreases |c|
  {
    if c == [] then 0 else |c[0].key| + KeyBytes(c[1..])
  }

  function ValueBytes(c: seq<Node>): (n: nat)
    decreases |c|
  {
    if c == [] then 0 else c[0].size + ValueBytes(c[1..])
  }

  /** The footprint of a chain: 32 bytes for each node, its keys, and what is allocated for its values. */
  lemma {:induction false} FootprintIs(c: seq<Node>)
    ensures Footprint(c) == 32 * |c| + KeyBytes(c) + ValueBytes(c)
    decreases |c|
  {
    if c != [] {
      FootprintIs(c[1..]);
    }
  }

  /** The entries of a map at 32 bytes each, with their keys and values. */
  ghost function Weight(m: map<Key, Value>): (n: nat)
    decreases |m|
  {
    if m == map[] then 0
    else
      var k :| k in m;
      Smaller(m, k);
      32 + |k| + |m[k]| + Weight(m - {k})
  }

  lemma Smaller(m: map<Key, Value>, k: Key)
    requires k in m
    ensures |m - {k}| == |m| - 1
  {
    assert (m - {k}).Keys == m.Keys - {k};
    assert |m.Keys| == |m| && |(m - {k}).Keys| == |m - {k}|;
  }

  lemma {:induction false} WeightWithout(m: map<Key, Value>, k: Key)
    requires k in m
    ensures Weight(m) == 32 + |k| + |m[k]| + Weight(m - {k})
    decreases |m|
  {
    var j :| j in m && Weight(m) == 32 + |j| + |m[j]| + Weight(m - {j});
    if j != k {
      Smaller(m, j);
      WeightWithout(m - {j}, k);
      WeightWithout(m - {k}, j);
      assert m - {j} - {k} == m - {k} - {j};
    }
  }

  /** Distinct nodes stand for as many entries, and weigh no less than they do. */
  lemma {:induction false} WeightBound(c: seq<Node>)
    requires Distinct(c) && forall n | n in c :: Fits(n)
    ensures |ToMap(c)| == |c| && Weight(ToMap(c)) <= 32 * |c| + KeyBytes(c) + ValueBytes(c)
    decreases |c|
  {
    if c != [] {
      hide Weight;
      var rest, m := ToMap(c[1..]), ToMap(c);
      assert Fits(c[0]) && m[c[0].key] == c[0].value;
      WeightBound(c[1..]);
      MapIsLookup(c[1..], c[0].key);
      assert m - {c[0].key} == rest;
      Smaller(m, c[0].key);
      WeightWithout(m, c[0].key);
    }
  }
}
