/** Full keys: where the parts of a key lie in one, and when two keys share one. */
module FullKeys {
  import opened Bytes
  import opened RecordCodec
  import opened Replication

  /** The parts lie one behind the other, with a byte 1 behind the first and behind the second. */
  lemma PackLayout(k: KeyInfo)
    ensures var p, a := Pack(k), |k.ns|;
            var b := a + 1 + |k.objId|;
            && |p| == b + 1 + |k.key|
            && p[..a] == k.ns && p[a] == 1
            && p[a + 1..b] == k.objId && p[b] == 1
            && p[b + 1..] == k.key
  {
  }

  /** Two parts with a byte 1 between them. */
  function Join(front: seq<Byte>, back: seq<Byte>): seq<Byte> { front + [1] + back }

  lemma PackIsJoin(k: KeyInfo)
    ensures Pack(k) == Join(k.ns, Join(k.objId, k.key))
  {
    PackLayout(k);
  }

  /** The byte between the parts of the first text is one within the front part of the second. */
  ghost predicate Shifted(a: seq<Byte>, b: seq<Byte>, c: seq<Byte>, d: seq<Byte>) {
    exists x :: c == Join(a, x) && b == Join(x, d)
  }

  /** When two pairs of parts give the same text. */
  lemma SameJoin(a: seq<Byte>, b: seq<Byte>, c: seq<Byte>, d: seq<Byte>)
    requires Join(a, b) == Join(c, d)
    ensures (a == c && b == d) || Shifted(a, b, c, d) || Shifted(c, d, a, b)
  {
    if |a| < |c| {
      LongerFront(a, b, c, d);
    } else if |c| < |a| {
      LongerFront(c, d, a, b);
    } else {
      assert Join(a, b)[..|a|] == a && Join(c, d)[..|a|] == c;
      assert Join(a, b)[|a| + 1..] == b && Join(c, d)[|a| + 1..] == d;
    }
  }

  lemma LongerFront(a: seq<Byte>, b: seq<Byte>, c: seq<Byte>, d: seq<Byte>)
    requires Join(a, b) == Join(c, d) && |a| < |c|
    ensures Shifted(a, b, c, d)
  {
    var s, x := Join(a, b), c[|a| + 1..];
    assert s[..|c|] == c && s[|c|] == 1 && s[|c| + 1..] == d;
    assert s[..|a|] == a && s[|a|] == 1 && s[|a| + 1..] == b;
    assert c == s[..|c|] == Join(a, x);
    assert b == s[|a| + 1..] == Join(x, d);
  }

  /** Neither namespace nor object id holds the byte that separates them. */
  predicate Separable(k: KeyInfo) { 1 !in k.ns && 1 !in k.objId }

  lemma ShiftedHolds(a: seq<Byte>, b: seq<Byte>, c: seq<Byte>, d: seq<Byte>)
    requires Shifted(a, b, c, d)
    ensures 1 in c && 1 in b
  {
    var x :| c == Join(a, x) && b == Join(x, d);
    assert c[|a|] == 1 && b[|x|] == 1;
  }

  /** Of separable keys each has a full key of its own, whatever bytes their last parts hold. */
  lemma PackExactly(a: KeyInfo, b: KeyInfo)
    requires Separable(a) && Separable(b)
    ensures Pack(a) == Pack(b) <==> a == b
  {
    if Pack(a) == Pack(b) {
      hide Pack, Join;
      PackIsJoin(a);
      PackIsJoin(b);
      SplitTwice(a, b);
    }
  }

  lemma SplitTwice(a: KeyInfo, b: KeyInfo)
    requires Separable(a) && Separable(b)
    requires Join(a.ns, Join(a.objId, a.key)) == Join(b.ns, Join(b.objId, b.key))
    ensures a == b
  {
    hide Join;
    var s, t := Join(a.objId, a.key), Join(b.objId, b.key);
    SameJoin(a.ns, s, b.ns, t);
    Unshifted(a.ns, s, b.ns, t);
    SameJoin(a.objId, a.key, b.objId, b.key);
    Unshifted(a.objId, a.key, b.objId, b.key);
  }

  lemma Unshifted(a: seq<Byte>, b: seq<Byte>, c: seq<Byte>, d: seq<Byte>)
    requires 1 !in a && 1 !in c
    ensures !Shifted(a, b, c, d) && !Shifted(c, d, a, b)
  {
    if Shifted(a, b, c, d) {
      ShiftedHolds(a, b, c, d);
    } else if Shifted(c, d, a, b) {
      ShiftedHolds(c, d, a, b);
    }
  }

  /** Without that: a key shares its full key with another if and only if one of its parts holds a byte 1. */
  lemma SharedExactly(a: KeyInfo)
    ensures (exists b: KeyInfo :: b != a && Pack(b) == Pack(a)) <==> 1 in a.ns || 1 in a.objId || 1 in a.key
  {
    if 1 in a.ns || 1 in a.objId || 1 in a.key {
      var b := OtherKey(a);
    } else {
      forall b: KeyInfo | Pack(b) == Pack(a) ensures b == a {
        AloneKey(a, b);
      }
    }
  }

  lemma OtherKey(a: KeyInfo) returns (b: KeyInfo)
    requires 1 in a.ns || 1 in a.objId || 1 in a.key
    ensures b != a && Pack(b) == Pack(a)
  {
    if 1 in a.key {
      var i :| 0 <= i < |a.key| && a.key[i] == 1;
      b := KeyInfo(a.ns, a.objId + [1] + a.key[..i], a.key[i + 1..]);
      assert Pack(b) == Pack(a);
    } else if 1 in a.objId {
      var i :| 0 <= i < |a.objId| && a.objId[i] == 1;
      b := KeyInfo(a.ns, a.objId[..i], a.objId[i + 1..] + [1] + a.key);
      assert Pack(b) == Pack(a);
    } else {
      var i :| 0 <= i < |a.ns| && a.ns[i] == 1;
      b := KeyInfo(a.ns[..i], a.ns[i + 1..] + [1] + a.objId, a.key);
      assert Pack(b) == Pack(a);
    }
  }

  lemma AloneKey(a: KeyInfo, b: KeyInfo)
    requires 1 !in a.ns && 1 !in a.objId && 1 !in a.key && Pack(b) == Pack(a)
    ensures b == a
  {
    hide Pack;
    var p, i, j := Pack(a), |a.ns|, |a.ns| + 1 + |a.objId|;
    PackLayout(a);
    PackLayout(b);
    forall n | 0 <= n < i ensures p[n] != 1 { assert p[n] == a.ns[n]; }
    forall n | i < n < j ensures p[n] != 1 { assert p[n] == a.objId[n - i - 1]; }
    forall n | j < n < |p| ensures p[n] != 1 { assert p[n] == a.key[n - j - 1]; }
    assert |b.ns| == i && |b.ns| + 1 + |b.objId| == j;
  }
}
