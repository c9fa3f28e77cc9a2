/** The memory pool's hash table: bucket array, counters, byte cap, in-place value reuse, rehash. */
module HashTable {
  import opened Bytes
  import opened HashChains

  const PRIMES: seq<nat> := [
    1, 3, 17, 37, 79, 163, 331, 673, 1361, 2729, 5471, 10949, 21911, 43853, 87719, 175447, 350899,
    701819, 1403641, 2807303, 5614657, 11229331, 22458671, 44917381, 89834777, 179669557, 359339171,
    718678369, 1437356741, 2147483647]

  /** The capacity after `c`; None past the largest prime. */
  function NextPrime(c: nat, from: nat): (p: Option<nat>)
    requires from <= |PRIMES|
    ensures p.Some? ==> p.value > c
    decreases |PRIMES| - from
  {
    if from == |PRIMES| then None
    else if PRIMES[from] > c then Some(PRIMES[from])
    else NextPrime(c, from + 1)
  }

  lemma {:induction false} PrimesAscend(i: nat, j: nat)
    requires i < j < |PRIMES|
    ensures PRIMES[i] < PRIMES[j]
  {
    if i + 1 < j {
      PrimesAscend(i, j - 1);
    }
    assert PRIMES[j - 1] < PRIMES[j];
  }

  lemma {:induction false} NextPrimeFrom(c: nat, from: nat) returns (i: nat)
    requires from <= |PRIMES|
    ensures from <= i <= |PRIMES| && (NextPrime(c, from).Some? <==> i < |PRIMES|)
    ensures i < |PRIMES| ==> NextPrime(c, from) == Some(PRIMES[i])
    ensures forall j | from <= j < i :: PRIMES[j] <= c
    decreases |PRIMES| - from
  {
    i := from;
    if from < |PRIMES| && PRIMES[from] <= c {
      i := NextPrimeFrom(c, from + 1);
      assert NextPrime(c, from) == NextPrime(c, from + 1);
    }
  }

  /** The least prime of the list above `c`; there is none exactly from the last one on. */
  lemma NextPrimeExactly(c: nat)
    ensures NextPrime(c, 0).Some? <==> c < PRIMES[|PRIMES| - 1]
    ensures NextPrime(c, 0).Some? ==>
              NextPrime(c, 0).value in PRIMES && forall p | p in PRIMES && p > c :: NextPrime(c, 0).value <= p
  {
    hide NextPrime;
    var i := NextPrimeFrom(c, 0);
    if i < |PRIMES| {
      forall p | p in PRIMES && p > c ensures PRIMES[i] <= p {
        var j :| 0 <= j < |PRIMES| && PRIMES[j] == p;
        if i < j {
          PrimesAscend(i, j);
        }
      }
      if i < |PRIMES| - 1 {
        PrimesAscend(i, |PRIMES| - 1);
      }
    }
  }

  /** Whether a value of this length goes into an allocation of this size. */
  predicate Reusable(size: nat, length: nat) {
    size >= length && (size <= 128 || size / 2 < length)
  }

  /**
    The return code of an insert: 0 for a value put into the existing allocation, 1 for a new node
    (also when it replaces one), and the two refusals.
   */
  function InsertResult(node: Option<Node>, bytesUsed: int, maxBytes: int, key: Key, value: Value, memory: bool): int {
    if node.Some? && Reusable(node.value.size, |value|) then 0
    else
      var freed := if node.Some? then NodeBytes(node.value) else 0;
      var needed := NodeBytes(Node(key, value, Align(|value|)));
      if maxBytes > 0 && bytesUsed - freed + needed > maxBytes then -ENOSPC
      else if memory then 1 else -ENOMEM
  }

  class HashArray {
    const hash: HashFunc
    const maxBytes: int
    const loadFactor: real
    var buckets: array<seq<Node>>
    var itemCount: int
    var bytesUsed: int

    ghost predicate Valid()
      reads this, buckets
    {
      && Placed(hash, buckets[..])
      && itemCount == |Flatten(buckets[..])|
      && bytesUsed == SLOT_BYTES * buckets.Length + Footprint(Flatten(buckets[..]))
    }

    /** The finite map the table stands for. */
    ghost function Contents(): map<Key, Value>
      reads this, buckets
    {
      View(buckets[..])
    }

    ghost function NodeOf(key: Key): Option<Node>
      reads this, buckets
    {
      Lookup(Flatten(buckets[..]), key)
    }

    /** Once within the cap, always within the cap. */
    ghost predicate WithinCap()
      reads this
    {
      maxBytes > 0 ==> bytesUsed <= maxBytes
    }

    /** What the byte counter counts. */
    lemma BytesAre()
      requires Valid()
      ensures var nodes := Flatten(buckets[..]);
              bytesUsed == 8 * buckets.Length + 32 * itemCount + KeyBytes(nodes) + ValueBytes(nodes)
    {
      hide Flatten, Placed, Footprint;
      FootprintIs(Flatten(buckets[..]));
    }

    /** The entries, with their keys and values, never weigh more than the cap allows. */
    lemma ContentsBound()
      requires Valid()
      ensures |Contents()| == itemCount && 8 * buckets.Length + Weight(Contents()) <= bytesUsed
      ensures maxBytes > 0 && WithinCap() ==> Weight(Contents()) <= maxBytes
    {
      hide Flatten, Footprint, ToMap, Weight, Fits, Distinct;
      var nodes := Flatten(buckets[..]);
      BytesAre();
      FlattenDistinct(hash, buckets[..], 0);
      assert buckets[..][0..] == buckets[..];
      WeightBound(nodes);
    }

    /**
      `hash_init_ex`: an empty table with the first prime of the list above the asked capacity, if there
      is one and memory for it. The cap is not yet in force.
     */
    static method Init(hash: HashFunc, capacity: nat, loadFactor: real, maxBytes: int, memory: bool)
      returns (result: int, table: HashArray?)
      ensures result == if capacity >= PRIMES[|PRIMES| - 1] then EINVAL else if memory then 0 else ENOMEM
      ensures result != 0 <==> table == null
      ensures table != null ==>
                && fresh(table) && fresh(table.buckets) && table.Valid() && table.Contents() == map[]
                && table.hash == hash && table.maxBytes == maxBytes
                && capacity < table.buckets.Length && table.buckets.Length in PRIMES
                && forall p | p in PRIMES && p > capacity :: table.buckets.Length <= p
    {
      var prime := NextPrime(capacity, 0);
      NextPrimeExactly(capacity);
      if prime.None? {
        return EINVAL, null;
      }
      if !memory {
        return ENOMEM, null;
      }
      table := new HashArray(hash, capacity, loadFactor, maxBytes);
      result := 0;
    }

    constructor (hash: HashFunc, capacity: nat, loadFactor: real, maxBytes: int)
      requires NextPrime(capacity, 0).Some?
      ensures Valid() && Contents() == map[] && fresh(buckets)
      ensures this.hash == hash && this.maxBytes == maxBytes && buckets.Length == NextPrime(capacity, 0).value
    {
      var n := NextPrime(capacity, 0).value;
      this.hash, this.maxBytes := hash, maxBytes;
      this.loadFactor := if 0.0 <= loadFactor <= 1.0 then loadFactor else 0.5;
      buckets := new seq<Node>[n](_ => []);
      itemCount, bytesUsed := 0, SLOT_BYTES * n;
      new;
      EmptyTable(hash, n);
      assert buckets[..] == Empty(n);
    }

    method FindIndex(key: Key) returns (b: nat, i: nat)
      requires Valid()
      ensures b < buckets.Length && b == Bucket(hash, buckets[..], key) && i <= |buckets[b]|
      ensures i < |buckets[b]| ==> buckets[b][i].key == key && NodeOf(key) == Some(buckets[b][i])
      ensures i == |buckets[b]| ==> NodeOf(key) == None
    {
      b := hash(key) % buckets.Length;
      i := 0;
      while i < |buckets[b]|
        invariant i <= |buckets[b]|
        invariant forall j :: 0 <= j < i ==> buckets[b][j].key != key
      {
        if buckets[b][i].key == key {
          break;
        }
        i := i + 1;
      }
      LookupBucket(hash, buckets[..], key);
      if i < |buckets[b]| {
        LookupAt(buckets[b], i);
      }
    }

    /** `hash_find_ex` */
    method Find(key: Key) returns (n: Option<Node>)
      requires Valid()
      ensures n == NodeOf(key)
      ensures n.Some? <==> key in Contents()
      ensures n.Some? ==> n.value.value == Contents()[key]
    {
      var b, i := FindIndex(key);
      n := if i < |buckets[b]| then Some(buckets[b][i]) else None;
      MapIsLookup(Flatten(buckets[..]), key);
    }

    method SetValue(b: nat, i: nat, value: Value)
      requires Valid() && b < buckets.Length && i < |buckets[b]| && |value| <= buckets[b][i].size
      modifies buckets
      ensures Valid() && Contents() == old(Contents())[old(buckets[b][i].key) := value]
    {
      hide Placed, Flatten, ToMap, Footprint;
      ghost var t := buckets[..];
      SetNode(hash, t, b, i, value);
      buckets[b] := buckets[b][i := buckets[b][i].(value := value)];
      assert buckets[..] == t[b := t[b][i := t[b][i].(value := value)]];
    }

    method Unlink(b: nat, i: nat)
      requires Valid() && b < buckets.Length && i < |buckets[b]|
      modifies this`itemCount, this`bytesUsed, buckets
      ensures Valid() && Contents() == old(Contents()) - {old(buckets[b][i].key)}
      ensures bytesUsed == old(bytesUsed) - NodeBytes(old(buckets[b][i]))
      ensures itemCount == old(itemCount) - 1
      ensures buckets[..] == old(buckets[..])[b := RemoveAt(old(buckets[..])[b], i)]
    {
      hide Placed, Flatten, ToMap, Footprint;
      ghost var t := buckets[..];
      RemoveNode(hash, t, b, i);
      var n := buckets[b][i];
      buckets[b] := buckets[b][..i] + buckets[b][i + 1..];
      itemCount := itemCount - 1;
      bytesUsed := bytesUsed - NodeBytes(n);
      assert buckets[..] == t[b := RemoveAt(t[b], i)];
    }

    method Link(n: Node)
      requires Valid() && n.key !in Contents() && Fits(n)
      modifies this`itemCount, this`bytesUsed, buckets
      ensures Valid() && Contents() == old(Contents())[n.key := n.value]
      ensures bytesUsed == old(bytesUsed) + NodeBytes(n)
      ensures itemCount == old(itemCount) + 1
    {
      hide Placed, Flatten, ToMap, Footprint;
      ghost var t := buckets[..];
      assert t != [] by { PlacedNonempty(hash, t); }
      AddNode(hash, t, n);
      var b := hash(n.key) % buckets.Length;
      bytesUsed := bytesUsed + NodeBytes(n);
      buckets[b] := [n] + buckets[b];
      itemCount := itemCount + 1;
      assert buckets[..] == Add(hash, t, n);
    }

    /** The nested loops of `_rehash1`: every node of the old array into the new one. */
    method MoveAll(old0: array<seq<Node>>, fresh0: array<seq<Node>>)
      requires old0 != fresh0 && fresh0.Length > 0 && fresh0[..] == Empty(fresh0.Length)
      modifies fresh0
      ensures fresh0[..] == AddAll(hash, Empty(fresh0.Length), Flatten(old0[..]))
      ensures old0[..] == old(old0[..])
    {
      hide Add, Distinct;
      ghost var t, start := old0[..], fresh0[..];
      var b := 0;
      assert t[0..] == t;
      while b < old0.Length
        invariant 0 <= b <= |t| && old0[..] == t
        invariant AddAll(hash, start, Flatten(t)) == AddAll(hash, fresh0[..], Flatten(t[b..]))
      {
        var chain := old0[b];
        assert t[b..][1..] == t[b + 1..];
        ghost var rest := Flatten(t[b + 1..]);
        assert Flatten(t[b..]) == chain + rest;
        var i := 0;
        assert chain[0..] == chain;
        while i < |chain|
          invariant 0 <= i <= |chain| && old0[..] == t
          invariant AddAll(hash, start, Flatten(t)) == AddAll(hash, fresh0[..], chain[i..] + rest)
        {
          var n := chain[i];
          assert (chain[i..] + rest)[0] == n && (chain[i..] + rest)[1..] == chain[i + 1..] + rest;
          var target := hash(n.key) % fresh0.Length;
          ghost var before := fresh0[..];
          fresh0[target] := [n] + fresh0[target];
          assert fresh0[..] == Add(hash, before, n) by { AddIs(hash, before, n); }
          i := i + 1;
        }
        assert chain[i..] + rest == rest;
        b := b + 1;
      }
    }

    /** `_hash_alloc_buckets` and `_rehash1`; a refusal leaves the table as it was. */
    method Rehash(newCapacity: nat, memory: bool) returns (result: int)
      requires Valid() && newCapacity > 0
      modifies this`buckets, this`bytesUsed
      ensures Valid() && Contents() == old(Contents()) && itemCount == old(itemCount)
      ensures result == if maxBytes > 0 && old(bytesUsed) + SLOT_BYTES * newCapacity > maxBytes then ENOSPC
                        else if memory then 0 else ENOMEM
      ensures result != 0 ==> buckets == old(buckets) && bytesUsed == old(bytesUsed)
      ensures result == 0 ==> fresh(buckets) && buckets.Length == newCapacity
      ensures bytesUsed == old(bytesUsed) + SLOT_BYTES * (buckets.Length - old(buckets.Length))
      ensures old(WithinCap()) ==> WithinCap()
    {
      hide Placed, Flatten, ToMap, Footprint, AddAll;
      var bytes := SLOT_BYTES * newCapacity;
      if maxBytes > 0 && bytesUsed + bytes > maxBytes {
        return ENOSPC;
      }
      if !memory {
        return ENOMEM;
      }
      var bigger := new seq<Node>[newCapacity](_ => []);
      assert bigger[..] == Empty(newCapacity);
      ghost var t := buckets[..];
      MoveAll(buckets, bigger);
      RehashKeeps(hash, t, newCapacity);
      bytesUsed := bytesUsed + bytes - SLOT_BYTES * buckets.Length;
      buckets := bigger;
      result := 0;
    }

    /** Room for a new node under the cap. */
    predicate Room(bytes: nat)
      reads this
    {
      !(maxBytes > 0 && bytesUsed + bytes > maxBytes)
    }

    /** Grow to the next prime when the load factor is reached; the outcome is ignored. */
    method MaybeRehash(memory: bool)
      requires Valid()
      modifies this`buckets, this`bytesUsed
      ensures Valid() && Contents() == old(Contents()) && itemCount == old(itemCount)
      ensures buckets == old(buckets) || fresh(buckets)
      ensures old(WithinCap()) ==> WithinCap()
      ensures var n := old(buckets.Length);
              var next := NextPrime(n, 0);
              var grows := && n > 0 && loadFactor >= 0.1 && itemCount as real / n as real >= loadFactor
                           && next.Some? && memory && !(maxBytes > 0 && old(bytesUsed) + 8 * next.value > maxBytes);
              buckets.Length == if grows then next.value else n
    {
      hide Placed, Flatten, ToMap, Footprint;
      assert buckets[..] != [] by { PlacedNonempty(hash, buckets[..]); }
      if loadFactor >= 0.1 && itemCount as real / buckets.Length as real >= loadFactor {
        var next := NextPrime(buckets.Length, 0);
        if next.Some? {
          var ignored := Rehash(next.value, memory);
        }
      }
    }

    /**
      `hash_insert_ex` with allocated values. An existing key whose allocation cannot be reused is
      unlinked first, so a failed insert loses that key - and never any other.
     */
    method Insert(key: Key, value: Value, memory: bool, rehashMemory: bool) returns (result: int)
      requires Valid()
      modifies this, buckets
      ensures Valid() && (buckets == old(buckets) || fresh(buckets))
      ensures result == InsertResult(old(NodeOf(key)), old(bytesUsed), maxBytes, key, value, memory)
      ensures var node := old(NodeOf(key));
              var size := if node.Some? then node.value.size else 0;
              var inPlace := node.Some? && |value| <= size && (size <= 128 || size < 2 * |value|);
              var freed := if node.Some? then 32 + |key| + size else 0;
              && (result == 0 <==> inPlace)
              && (result == -ENOSPC <==>
                    !inPlace && maxBytes > 0 && old(bytesUsed) - freed + 32 + |key| + Align(|value|) > maxBytes)
      ensures result >= 0 ==> Contents() == old(Contents())[key := value]
      ensures result < 0 ==> Contents() == old(Contents()) - {key}
      ensures var node := old(NodeOf(key));
              result < 0 ==>
                && bytesUsed == old(bytesUsed) - (if node.Some? then NodeBytes(node.value) else 0)
                && Loses(old(buckets[..]), buckets[..], key)
      ensures old(WithinCap()) ==> WithinCap()
    {
      hide Placed, Flatten, ToMap, Footprint, Lookup;
      var b, i := FindIndex(key);
      MapIsLookup(Flatten(buckets[..]), key);
      if i < |buckets[b]| {
        var n := buckets[b][i];
        if Reusable(n.size, |value|) {
          SetValue(b, i, value);
          return 0;
        }
        Unlink(b, i);
      }
      assert key !in Contents() && Contents() == old(Contents()) - {key};
      var node := Node(key, value, Align(|value|));
      if !Room(NodeBytes(node)) {
        return -ENOSPC;
      }
      if !memory {
        return -ENOMEM;
      }
      Link(node);
      MaybeRehash(rehashMemory);
      result := 1;
    }

    /** `hash_inc_ex`: the new value is computed from the old one and stored, in place if it fits. */
    method Inc(key: Key, convert: Option<Value> -> Value, memory: bool, rehashMemory: bool)
        returns (result: int, value: Value)
      requires Valid()
      modifies this, buckets
      ensures Valid() && (buckets == old(buckets) || fresh(buckets))
      ensures var v := convert(if key in old(Contents()) then Some(old(Contents())[key]) else None);
              && (result == 0 ==> value == v && Contents() == old(Contents())[key := v])
              && (result != 0 ==> value == [] && Contents() == old(Contents()) - {key})
      ensures result == 0 || result == ENOSPC || result == ENOMEM
      ensures var v := convert(if key in old(Contents()) then Some(old(Contents())[key]) else None);
              var node := old(NodeOf(key));
              var code := InsertResult(node, old(bytesUsed), maxBytes, key, v, memory);
              result == if (node.Some? && |v| <= node.value.size) || code >= 0 then 0 else -code
      ensures old(WithinCap()) ==> WithinCap()
    {
      hide Placed, Flatten, ToMap, Footprint, Lookup;
      var b, i := FindIndex(key);
      MapIsLookup(Flatten(buckets[..]), key);
      value := convert(if i < |buckets[b]| then Some(buckets[b][i].value) else None);
      if i < |buckets[b]| && buckets[b][i].size >= |value| {
        SetValue(b, i, value);
        return 0, value;
      }
      result := Insert(key, value, memory, rehashMemory);
      if result < 0 {
        value := [];
        result := -result;
      } else {
        result := 0;
      }
    }

    /**
      `hash_partial_set`: overwrite part of a value, or extend it; a missing key only at offset 0. The
      longer value is put together in a buffer of its own; `scratch` says whether there is memory for it.
     */
    method PartialSet(key: Key, part: Value, offset: int, scratch: bool, memory: bool, rehashMemory: bool)
      returns (result: int)
      requires Valid()
      modifies this, buckets
      ensures Valid() && (buckets == old(buckets) || fresh(buckets))
      ensures result == 0 ==> Contents() == old(Contents())[key := Patched(old(Contents()), key, part, offset)]
      ensures result == EINVAL <==> key in old(Contents()) && !(0 <= offset < |old(Contents())[key]|)
      ensures result == ENOENT <==> key !in old(Contents()) && offset != 0
      ensures result == EINVAL || result == ENOENT ==> Contents() == old(Contents())
      ensures Extends(old(Contents()), key, part, offset) && !scratch ==>
                result == ENOMEM && Contents() == old(Contents())
      ensures !(Extends(old(Contents()), key, part, offset) && !scratch) && (result == ENOSPC || result == ENOMEM) ==>
                Contents() == old(Contents()) - {key}
      ensures result in {0, EINVAL, ENOENT, ENOSPC, ENOMEM}
      ensures var m := old(Contents());
              var v := Patched(m, key, part, offset);
              var code := InsertResult(old(NodeOf(key)), old(bytesUsed), maxBytes, key, v, memory);
              && (key in m && 0 <= offset < |m[key]| && offset + |part| <= |m[key]| ==> result == 0)
              && ((key !in m && offset == 0) || (Extends(m, key, part, offset) && scratch) ==>
                    result == if code < 0 then -code else 0)
      ensures old(WithinCap()) ==> WithinCap()
    {
      hide Placed, Flatten, ToMap, Footprint, Lookup;
      var b, i := FindIndex(key);
      MapIsLookup(Flatten(buckets[..]), key);
      if i < |buckets[b]| {
        var n := buckets[b][i];
        if offset < 0 || offset >= |n.value| {
          return EINVAL;
        }
        var patched := n.value[..offset] + part;
        if offset + |part| <= |n.value| {
          assert Fits(n) by { NodeFits(hash, buckets[..], b, i); }
          SetValue(b, i, patched + n.value[offset + |part|..]);
          return 0;
        }
        if !scratch {
          return ENOMEM;
        }
        result := Insert(key, patched, memory, rehashMemory);
      } else {
        if offset != 0 {
          return ENOENT;
        }
        result := Insert(key, part, memory, rehashMemory);
      }
      result := if result < 0 then -result else 0;
    }

    /** `hash_delete` */
    method Delete(key: Key) returns (result: int)
      requires Valid()
      modifies this`itemCount, this`bytesUsed, buckets
      ensures Valid() && Contents() == old(Contents()) - {key}
      ensures result == if key in old(Contents()) then 0 else ENOENT
      ensures bytesUsed <= old(bytesUsed) && (old(WithinCap()) ==> WithinCap())
    {
      hide Placed, Flatten, ToMap, Footprint, Lookup;
      var b, i := FindIndex(key);
      MapIsLookup(Flatten(buckets[..]), key);
      result := ENOENT;
      if i < |buckets[b]| {
        Unlink(b, i);
        result := 0;
      }
    }
  }

  /** The bucket array without the node of the key, if there is one. */
  ghost predicate Loses(t: Table, u: Table, key: Key) {
    if Lookup(Flatten(t), key).None? then u == t
    else exists b, i :: 0 <= b < |t| && 0 <= i < |t[b]| && t[b][i].key == key && u == t[b := RemoveAt(t[b], i)]
  }

  /** A partial set that makes the value longer. */
  predicate Extends(m: map<Key, Value>, key: Key, part: Value, offset: int) {
    key in m && 0 <= offset < |m[key]| && offset + |part| > |m[key]|
  }

  /** The value after a partial set. */
  function Patched(m: map<Key, Value>, key: Key, part: Value, offset: int): Value {
    if key !in m then part
    else if !(0 <= offset < |m[key]|) then m[key]
    else if offset + |part| <= |m[key]| then m[key][..offset] + part + m[key][offset + |part|..]
    else m[key][..offset] + part
  }

  /** A partial set keeps what is before and behind the part, and puts the part between. */
  lemma PatchedIs(m: map<Key, Value>, key: Key, part: Value, offset: int)
    requires key in m && 0 <= offset < |m[key]|
    ensures var old0, new0 := m[key], Patched(m, key, part, offset);
            && |new0| == (if offset + |part| > |old0| then offset + |part| else |old0|)
            && (forall i | 0 <= i < |new0| ::
                  new0[i] == if offset <= i < offset + |part| then part[i - offset] else old0[i])
  {
  }

  lemma NodeFits(h: HashFunc, t: Table, b: nat, i: nat)
    requires Placed(h, t) && b < |t| && i < |t[b]|
    ensures Fits(t[b][i])
  {
  }

  lemma AddIs(h: HashFunc, t: Table, n: Node)
    requires t != []
    ensures Add(h, t, n) == t[h(n.key) % |t| := [n] + t[h(n.key) % |t|]]
  {
  }

  lemma PlacedNonempty(h: HashFunc, t: Table)
    requires Placed(h, t)
    ensures t != []
  {
  }
}
