/** The batch-set request and response on the wire. */
module BatchFormat {
  import opened Bytes
  import RecordCodec

  const HEADER := 19
  const MAX_NAMESPACE := 64
  const MAX_OBJECT_ID := 128
  const MAX_SUB_KEY := 128
  const MAX_KEYS := 128
  const LIST_KEY := RecordCodec.LIST_KEY

  datatype Pair = Pair(key: seq<Byte>, value: seq<Byte>)

  datatype Request = Request(space: seq<Byte>, id: seq<Byte>, pairs: seq<Pair>)

  predicate SendablePair(p: Pair) {
    1 <= |p.key| <= MAX_SUB_KEY && p.key != LIST_KEY && |p.value| <= INT32_MAX
  }

  predicate Sendable(r: Request) {
    && 1 <= |r.space| <= MAX_NAMESPACE && 1 <= |r.id| <= MAX_OBJECT_ID && 1 <= |r.pairs| <= MAX_KEYS
    && forall i | 0 <= i < |r.pairs| :: SendablePair(r.pairs[i])
  }

  /** A length-prefixed string. */
  function Field(s: seq<Byte>): seq<Byte> { PutInt(|s|) + s }

  function PackPairs(ps: seq<Pair>): seq<Byte>
    decreases |ps|
  {
    if ps == [] then [] else Field(ps[0].key) + Field(ps[0].value) + PackPairs(ps[1..])
  }

  /** What the client sends after the header. */
  function PackBody(r: Request): seq<Byte> {
    Field(r.space) + Field(r.id) + PutInt(|r.pairs|) + PackPairs(r.pairs)
  }

  /** The header: length of the body, key hash, time stamp and expiry, then command, keep-alive flag and status. */
  function PackHeader(length: int, hash: int, timestamp: int, expires: int, flags: seq<Byte>): (h: seq<Byte>)
    ensures |h| == 16 + |flags|
  {
    PutInt(length) + PutInt(hash) + PutInt(timestamp) + PutInt(expires) + flags
  }

  /** The request fields before the pairs, and where the pairs start. */
  datatype Prefix = Prefix(space: seq<Byte>, id: seq<Byte>, count: nat, start: nat)

  function IntAt(d: seq<Byte>, p: nat): int
    requires p + 4 <= |d|
  {
    GetInt(d[p..p + 4])
  }

  /** The checks of the common body and of the key count. */
  function ParsePrefix(d: seq<Byte>): (r: Option<Prefix>)
    requires |d| >= HEADER
    ensures r.Some? ==> 27 < r.value.start <= |d| && 0 < r.value.count <= MAX_KEYS
    ensures r.Some? ==> r.value.start == HEADER + 12 + |r.value.space| + |r.value.id|
  {
    var n := |d| - HEADER;
    if n <= 20 then None
    else
      var s := IntAt(d, HEADER);
      if s < 0 || s > MAX_NAMESPACE || n <= 20 + s then None
      else
        var o := IntAt(d, HEADER + 4 + s);
        if o < 0 || o > MAX_OBJECT_ID || n <= 20 + s + o then None
        else
          var count := IntAt(d, HEADER + 8 + s + o);
          if count <= 0 || count > MAX_KEYS then None
          else
            Some(Prefix(d[HEADER + 4..HEADER + 4 + s], d[HEADER + 8 + s..HEADER + 8 + s + o], count,
                        HEADER + 12 + s + o))
  }

  /** One key and value at `p`, and where the next starts. */
  function ParsePair(d: seq<Byte>, p: nat): (r: Option<(Pair, nat)>)
    ensures r.Some? ==> r.value.1 == p + 8 + |r.value.0.key| + |r.value.0.value| <= |d|
  {
    if p + 4 > |d| then None
    else
      var k := IntAt(d, p);
      if k <= 0 || k > MAX_SUB_KEY || |d| < p + 8 + k || d[p + 4..p + 4 + k] == LIST_KEY then None
      else
        var v := IntAt(d, p + 4 + k);
        if v < 0 || |d| < p + 8 + k + v then None
        else Some((Pair(d[p + 4..p + 4 + k], d[p + 8 + k..p + 8 + k + v]), p + 8 + k + v))
  }

  /** A pair in order but for its value's length, which is negative; the server does not check for that. */
  predicate Negative(d: seq<Byte>, p: nat) {
    && p + 4 <= |d|
    && var k := IntAt(d, p);
       && 0 < k <= MAX_SUB_KEY && p + 8 + k <= |d| && d[p + 4..p + 4 + k] != LIST_KEY
       && IntAt(d, p + 4 + k) < 0
  }

  /** Where the pairs stop: at the first malformed one, or behind the last. */
  function Stop(d: seq<Byte>, p: nat, count: nat): nat
    decreases count
  {
    if count == 0 || ParsePair(d, p).None? then p else Stop(d, ParsePair(d, p).value.1, count - 1)
  }

  /** The pairs up to the first malformed one; the end position if there is none. */
  function ParsePairs(d: seq<Byte>, p: nat, count: nat): (r: (seq<Pair>, Option<nat>))
    ensures |r.0| <= count && (r.1.Some? ==> |r.0| == count)
    decreases count
  {
    if count == 0 then ([], Some(p))
    else
      match ParsePair(d, p)
      case None => ([], None)
      case Some((pair, next)) =>
        var (ps, end) := ParsePairs(d, next, count - 1);
        ([pair] + ps, end)
  }

  lemma FieldAt(a: seq<Byte>, s: seq<Byte>, b: seq<Byte>)
    requires |s| <= INT32_MAX
    ensures var d := a + Field(s) + b;
            && IntAt(d, |a|) == |s| && d[|a| + 4..|a| + 4 + |s|] == s
            && |d| == |a| + 4 + |s| + |b|
  {
  }

  lemma ParsePacked(a: seq<Byte>, p: Pair, b: seq<Byte>)
    requires SendablePair(p)
    ensures ParsePair(a + Field(p.key) + Field(p.value) + b, |a|)
         == Some((p, |a + Field(p.key) + Field(p.value)|))
  {
    hide PutInt, GetInt;
    var d := a + Field(p.key) + Field(p.value) + b;
    assert d == a + Field(p.key) + (Field(p.value) + b);
    FieldAt(a, p.key, Field(p.value) + b);
    FieldAt(a + Field(p.key), p.value, b);
  }

  lemma {:induction false} PairsRoundTrip(a: seq<Byte>, ps: seq<Pair>)
    requires forall i | 0 <= i < |ps| :: SendablePair(ps[i])
    ensures ParsePairs(a + PackPairs(ps), |a|, |ps|) == (ps, Some(|a + PackPairs(ps)|))
    decreases |ps|
  {
    hide ParsePair, Field, SendablePair;
    if ps == [] {
      assert a + PackPairs(ps) == a;
    } else {
      var front := a + Field(ps[0].key) + Field(ps[0].value);
      assert a + PackPairs(ps) == front + PackPairs(ps[1..]);
      ParsePacked(a, ps[0], PackPairs(ps[1..]));
      PairsRoundTrip(front, ps[1..]);
      assert ps == [ps[0]] + ps[1..];
    }
  }

  /** The server reads back the request the client packed. */
  lemma RequestRoundTrip(header: seq<Byte>, r: Request)
    requires |header| == HEADER && Sendable(r)
    ensures var d := header + PackBody(r);
            var start := HEADER + 12 + |r.space| + |r.id|;
            && ParsePrefix(d) == Some(Prefix(r.space, r.id, |r.pairs|, start))
            && ParsePairs(d, start, |r.pairs|) == (r.pairs, Some(|d|))
  {
    hide PutInt, GetInt, ParsePairs, PackPairs, SendablePair;
    var d, tail := header + PackBody(r), PackPairs(r.pairs);
    var front := header + Field(r.space) + Field(r.id);
    assert d == header + Field(r.space) + (Field(r.id) + PutInt(|r.pairs|) + tail);
    FieldAt(header, r.space, Field(r.id) + PutInt(|r.pairs|) + tail);
    assert d == header + Field(r.space) + Field(r.id) + (PutInt(|r.pairs|) + tail);
    FieldAt(header + Field(r.space), r.id, PutInt(|r.pairs|) + tail);
    assert d[|front|..|front| + 4] == PutInt(|r.pairs|);
    GetPutInt(|r.pairs|, []);
    assert PutInt(|r.pairs|) + [] == PutInt(|r.pairs|);
    assert d == front + PutInt(|r.pairs|) + tail;
    PairsRoundTrip(front + PutInt(|r.pairs|), r.pairs);
    PackedLength(r.pairs);
  }

  lemma PackedLength(ps: seq<Pair>)
    requires ps != [] && SendablePair(ps[0])
    ensures |PackPairs(ps)| > 8
  {
  }
}
