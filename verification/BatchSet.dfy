/** The batch-set handler, which writes its response over the request it is still reading. */
module BatchSet {
  import opened Bytes
  import opened BatchFormat
  import RecordCodec
  import Replication

  /** One store call: full key, expiry and value, and what the store answered. */
  datatype Call = Call(key: seq<Byte>, value: seq<Byte>, result: int)

  type Store = (nat, seq<Byte>, seq<Byte>) -> int

  function CallFor(store: Store, pre: Prefix, expires: int, i: nat, p: Pair): Call {
    var key := Replication.Pack(RecordCodec.KeyInfo(pre.space, pre.id, p.key));
    var value := PutInt(expires) + p.value;
    Call(key, value, store(i, key, value))
  }

  /** Setting parsed pairs one after the other. */
  function Calls(store: Store, pre: Prefix, expires: int, ps: seq<Pair>): seq<Call> {
    seq(|ps|, i requires 0 <= i < |ps| => CallFor(store, pre, expires, i, ps[i]))
  }

  function Successes(calls: seq<Call>): nat
    decreases |calls|
  {
    if calls == [] then 0
    else Successes(calls[..|calls| - 1]) + if calls[|calls| - 1].result == 0 then 1 else 0
  }

  /** Key and status byte of every pair. */
  function Statuses(ps: seq<Pair>, calls: seq<Call>): seq<Byte>
    requires |ps| == |calls|
    decreases |ps|
  {
    if ps == [] then []
    else
      var n := |ps| - 1;
      Statuses(ps[..n], calls[..n]) + (Field(ps[n].key) + [calls[n].result % 256])
  }

  function Response(ps: seq<Pair>, calls: seq<Call>): seq<Byte>
    requires |ps| == |calls|
  {
    PutInt(|ps|) + PutInt(Successes(calls)) + Statuses(ps, calls)
  }

  function KeyBytes(ps: seq<Pair>): nat
    decreases |ps|
  {
    if ps == [] then 0 else KeyBytes(ps[..|ps| - 1]) + |ps[|ps| - 1].key|
  }

  /** The response length the client insists on. */
  lemma {:induction false} ResponseLength(ps: seq<Pair>, calls: seq<Call>)
    requires |ps| == |calls|
    ensures |Response(ps, calls)| == 8 + 5 * |ps| + KeyBytes(ps)
    decreases |ps|
  {
    if ps != [] {
      var n := |ps| - 1;
      ResponseLength(ps[..n], calls[..n]);
    }
  }

  method PutIntAt(data: array<Byte>, p: nat, n: int)
    requires p + 4 <= data.Length
    modifies data
    ensures data[..] == Overwrite(old(data[..]), p, PutInt(n))
  {
    var s := PutInt(n);
    data[p], data[p + 1], data[p + 2], data[p + 3] := s[0], s[1], s[2], s[3];
  }

  method CopyTo(data: array<Byte>, p: nat, s: seq<Byte>)
    requires p + |s| <= data.Length
    modifies data
    ensures data[..] == Overwrite(old(data[..]), p, s)
  {
    forall i | 0 <= i < |s| {
      data[p + i] := s[i];
    }
  }

  /** A piece of the unread part. */
  lemma Unread(now: seq<Byte>, d: seq<Byte>, src: nat, a: nat, b: nat)
    requires src <= a <= b <= |d| <= |now| && now[src..|d|] == d[src..]
    ensures now[a..b] == d[a..b]
  {
    forall i | 0 <= i < b - a ensures now[a..b][i] == d[a..b][i] {
      assert now[src..|d|][a + i - src] == d[src..][a + i - src];
    }
  }

  lemma Halves(s: seq<Byte>, a: nat, b: nat, c: nat)
    requires a <= b <= c <= |s|
    ensures s[a..c] == s[a..b] + s[b..c]
  {
  }

  function Overwrite(s: seq<Byte>, p: nat, t: seq<Byte>): seq<Byte>
    requires p + |t| <= |s|
  {
    s[..p] + t + s[p + |t|..]
  }

  /** Writing leaves every piece before and after alone. */
  lemma Elsewhere(s: seq<Byte>, p: nat, t: seq<Byte>, a: nat, b: nat)
    requires p + |t| <= |s| && a <= b <= |s| && (b <= p || p + |t| <= a)
    ensures Overwrite(s, p, t)[a..b] == s[a..b]
  {
  }

  lemma Written(s: seq<Byte>, p: nat, t: seq<Byte>)
    requires p + |t| <= |s|
    ensures Overwrite(s, p, t)[p..p + |t|] == t && |Overwrite(s, p, t)| == |s|
  {
  }

  /** Reads one pair: its key, where its value's length stands, and that length. */
  method ReadPair(data: array<Byte>, ghost d: seq<Byte>, length: nat, from: nat)
    returns (r: Option<(seq<Byte>, nat, int)>)
    requires from <= |d| == length <= data.Length && data[from..length] == d[from..]
    ensures r.None? <==> ParsePair(d, from).None? && !Negative(d, from)
    ensures r.Some? ==>
      var (key, src, v) := r.value;
      && src == from + 4 + |key| && src + 4 <= length && src + 4 + v <= length
      && IntAt(d, from) == |key| && d[from + 4..src] == key && IntAt(d, src) == v
      && (if v >= 0 then ParsePair(d, from) == Some((Pair(key, d[src + 4..src + 4 + v]), src + 4 + v))
          else Negative(d, from) && ParsePair(d, from).None?)
  {
    hide GetInt;
    if from + 4 > length {
      return None;
    }
    ghost var now := data[..];
    Unread(now, d, from, from, from + 4);
    var k := GetInt(data[from..from + 4]);
    if k <= 0 || k > MAX_SUB_KEY || length < from + 8 + k {
      return None;
    }
    Unread(now, d, from, from + 4, from + 4 + k);
    var key := data[from + 4..from + 4 + k];
    if key == LIST_KEY {
      return None;
    }
    var src := from + 4 + k;
    Unread(now, d, from, src, src + 4);
    var v := GetInt(data[src..src + 4]);
    if length < src + 4 + v {
      return None;
    }
    r := Some((key, src, v));
  }

  /** How a turn of the loop ends: the pair is refused, set, set with a value cut short, or has no value at all. */
  datatype Turn = Refused | Done(call: Call) | Short(call: Call) | Wild

  /** The call for a pair whose value's length v is -4 to -1: the store gets only so much of the expiry. */
  function ShortCall(store: Store, pre: Prefix, expires: int, i: nat, d: seq<Byte>, p: nat): Call
    requires Negative(d, p) && IntAt(d, p + 4 + IntAt(d, p)) >= -4
  {
    var k := IntAt(d, p);
    var key := Replication.Pack(RecordCodec.KeyInfo(pre.space, pre.id, d[p + 4..p + 4 + k]));
    var value := PutInt(expires)[..4 + IntAt(d, p + 4 + k)];
    Call(key, value, store(i, key, value))
  }

  /** One turn of the loop: nothing is written before the pair has been checked. */
  method SetPair(data: array<Byte>, ghost d: seq<Byte>, length: nat, from: nat, dest0: nat, i: nat, pre: Prefix,
                 expires: int, store: Store)
    returns (turn: Turn, src: nat, dest: nat)
    requires dest0 + 4 <= from <= |d| == length <= data.Length && data[from..length] == d[from..]
    modifies data
    ensures turn.Refused? <==> ParsePair(d, from).None? && !Negative(d, from)
    ensures turn.Refused? ==> dest == dest0 && data[..] == old(data[..])
    ensures turn.Done? ==>
      && ParsePair(d, from).Some?
      && var (p, next) := ParsePair(d, from).value;
         && turn.call == CallFor(store, pre, expires, i, p) && src == next
         && dest == dest0 + 5 + |p.key| && dest + 4 <= src
         && data[..dest] == old(data[..dest0]) + (Field(p.key) + [turn.call.result % 256])
         && data[src..length] == d[src..]
    ensures turn.Short? || turn.Wild? ==>
      && Negative(d, from) && ParsePair(d, from).None? && data[..dest0] == old(data[..dest0])
      && var at := from + 4 + IntAt(d, from);
         && (turn.Wild? <==> IntAt(d, at) < -4)
         && (turn.Short? ==>
               && turn.call == ShortCall(store, pre, expires, i, d, from) && src == at + 4 + IntAt(d, at)
               && data[at..length] == PutInt(expires) + d[at + 4..])
  {
    hide ParsePair, Field, CallFor, GetInt, PutInt;
    turn, src, dest := Refused, from, dest0;
    var r := ReadPair(data, d, length, from);
    if r.None? {
      return;
    }
    var (key, at, v) := r.value;
    ghost var was := data[..];
    Unread(was, d, from, at + 4, length);
    if v < -4 {
      WriteKey(data, dest0, key, at);
      dest := dest0 + 4 + |key|;
      Piece(data[..], dest, 0, dest0);
      turn := Wild;
      return;
    }
    var call;
    call, dest := Reply(data, dest0, key, at, v, i, pre, expires, store);
    src := at + 4 + v;
    Replied(data[..], was, d, PutInt(expires), at, v);
    if v >= 0 {
      CallIs(store, pre, expires, i, key, d[at + 4..src]);
      turn := Done(call);
    } else {
      Piece(data[..], dest, 0, dest0);
      turn := Short(call);
    }
  }

  /** The buffer from the value's length on, once the expiry has been written there. */
  lemma Replied(now: seq<Byte>, was: seq<Byte>, d: seq<Byte>, e: seq<Byte>, at: nat, v: int)
    requires |e| == 4 && at + 4 <= |d| <= |was| == |now| && -4 <= v && at + 4 + v <= |d|
    requires was[at + 4..|d|] == d[at + 4..] && now[at..] == e + was[at + 4..]
    ensures now[at..|d|] == e + d[at + 4..]
    ensures v >= 0 ==> (e + was[at + 4..])[..4 + v] == e + d[at + 4..at + 4 + v]
    ensures v >= 0 ==> now[at + 4 + v..|d|] == d[at + 4 + v..]
    ensures v < 0 ==> (e + was[at + 4..])[..4 + v] == e[..4 + v]
  {
    assert now[at..|d|] == now[at..][..|d| - at];
    assert was[at + 4..|d|] == was[at + 4..][..|d| - at - 4];
    if v >= 0 {
      assert was[at + 4..][..v] == d[at + 4..][..v] == d[at + 4..at + 4 + v];
      assert now[at + 4 + v..|d|] == now[at..|d|][4 + v..];
    }
  }

  lemma CallIs(store: Store, pre: Prefix, expires: int, i: nat, key: seq<Byte>, value: seq<Byte>)
    ensures var full := Replication.Pack(RecordCodec.KeyInfo(pre.space, pre.id, key));
            CallFor(store, pre, expires, i, Pair(key, value))
            == Call(full, PutInt(expires) + value, store(i, full, PutInt(expires) + value))
  {
  }

  /** Writes key and status, and the expiry over the value's length field. */
  method Reply(data: array<Byte>, dest0: nat, key: seq<Byte>, src: nat, v: int, i: nat, pre: Prefix, expires: int,
               store: Store)
    returns (call: Call, dest: nat)
    requires dest0 + 4 + |key| + 4 <= src && -4 <= v && src + 4 <= data.Length && src + 4 + v <= data.Length
    modifies data
    ensures var full := Replication.Pack(RecordCodec.KeyInfo(pre.space, pre.id, key));
            var value := (PutInt(expires) + old(data[src + 4..]))[..4 + v];
            call == Call(full, value, store(i, full, value))
    ensures dest == dest0 + 5 + |key|
    ensures data[..dest] == old(data[..dest0]) + (Field(key) + [call.result % 256])
    ensures data[src..] == PutInt(expires) + old(data[src + 4..])
  {
    hide PutInt, Overwrite;
    ghost var n := data.Length;
    WriteKey(data, dest0, key, src);
    ghost var keyed, e := data[..], PutInt(expires);
    PutIntAt(data, src, expires);
    Written(keyed, src, e);
    Elsewhere(keyed, src, e, src + 4, n);
    Elsewhere(keyed, src, e, 0, dest0 + 4 + |key|);
    Halves(data[..], src, src + 4, n);
    assert data[src..] == data[..][src..n] && old(data[src + 4..]) == old(data[..])[src + 4..n];
    assert data[src..] == PutInt(expires) + old(data[src + 4..]);
    var value := data[src..src + 4 + v];
    assert value == data[src..][..4 + v];
    var full := Replication.Pack(RecordCodec.KeyInfo(pre.space, pre.id, key));
    var result := store(i, full, value);
    call := Call(full, value, result);
    ghost var before := data[..];
    dest := dest0 + 5 + |key|;
    data[dest - 1] := result % 256;
    assert data[..dest] == before[0..dest - 1] + [result % 256];
    assert data[src..] == before[src..];
  }

  /** The key of the response; what lies from the value on stays. */
  method WriteKey(data: array<Byte>, dest: nat, key: seq<Byte>, src: nat)
    requires dest + 4 + |key| <= src && src + 4 <= data.Length
    modifies data
    ensures data[0..dest + 4 + |key|] == old(data[..dest]) + Field(key)
    ensures data[..][src + 4..data.Length] == old(data[..])[src + 4..data.Length]
  {
    hide PutInt, Overwrite;
    ghost var was, n := data[..], data.Length;
    PutIntAt(data, dest, |key|);
    CopyTo(data, dest + 4, key);
    KeyWritten(was, dest, key);
    KeyElsewhere(was, dest, key, src + 4, n);
  }

  lemma KeyWritten(s: seq<Byte>, p: nat, key: seq<Byte>)
    requires p + 4 + |key| <= |s|
    ensures var t := Overwrite(Overwrite(s, p, PutInt(|key|)), p + 4, key);
            |t| == |s| && t[0..p + 4 + |key|] == s[..p] + Field(key)
  {
  }

  lemma KeyElsewhere(s: seq<Byte>, p: nat, key: seq<Byte>, a: nat, b: nat)
    requires p + 4 + |key| <= a <= b <= |s|
    ensures var t := Overwrite(Overwrite(s, p, PutInt(|key|)), p + 4, key);
            |t| == |s| && t[a..b] == s[a..b]
  {
  }

  lemma ParseStep(d: seq<Byte>, p: nat, count: nat, done: seq<Pair>)
    requires count > 0
    ensures var r := ParsePairs(d, p, count);
            && (ParsePair(d, p).None? ==> r == ([], None) && Stop(d, p, count) == p)
            && (ParsePair(d, p).Some? ==>
                  var (pair, next) := ParsePair(d, p).value;
                  var rest := ParsePairs(d, next, count - 1);
                  && done + r.0 == done + [pair] + rest.0 && r.1 == rest.1
                  && Stop(d, p, count) == Stop(d, next, count - 1))
  {
  }

  lemma ParseEnd(d: seq<Byte>, p: nat)
    ensures ParsePairs(d, p, 0) == ([], Some(p)) && Stop(d, p, 0) == p
  {
  }

  /** One more pair in the response and in the counts. */
  lemma Snoc(store: Store, pre: Prefix, expires: int, done: seq<Pair>, calls: seq<Call>, pair: Pair)
    requires calls == Calls(store, pre, expires, done)
    ensures var call := CallFor(store, pre, expires, |done|, pair);
            && calls + [call] == Calls(store, pre, expires, done + [pair])
            && Successes(calls + [call]) == Successes(calls) + (if call.result == 0 then 1 else 0)
            && Statuses(done + [pair], calls + [call])
               == Statuses(done, calls) + (Field(pair.key) + [call.result % 256])
  {
  }

  /** The pairs stop at one whose value has a negative length. */
  predicate StopsNegative(d: seq<Byte>, pre: Prefix) {
    ParsePairs(d, pre.start, pre.count).1.None? && Negative(d, Stop(d, pre.start, pre.count))
  }

  /** What the store has been asked for by then: one call more than there are proper pairs, if it can be asked. */
  function OddCalls(store: Store, pre: Prefix, expires: int, d: seq<Byte>): seq<Call>
    requires StopsNegative(d, pre)
  {
    var ps, p := ParsePairs(d, pre.start, pre.count).0, Stop(d, pre.start, pre.count);
    Calls(store, pre, expires, ps)
    + if IntAt(d, p + 4 + IntAt(d, p)) < -4 then [] else [ShortCall(store, pre, expires, |ps|, d, p)]
  }

  /**
    What the loop over the pairs has done by the time it stops. The model stops, with `odd`, when a
    value has a negative length: the bytes to be read next are then not those of the message.
   */
  method SetPairs(data: array<Byte>, ghost d: seq<Byte>, length: nat, pre: Prefix, expires: int, store: Store)
    returns (ok: bool, odd: bool, src: nat, dest: nat, calls: seq<Call>, success: nat)
    requires HEADER + 12 <= pre.start <= |d| == length <= data.Length && data[pre.start..length] == d[pre.start..]
    modifies data
    ensures odd <==> StopsNegative(d, pre)
    ensures odd ==> !ok && calls == OddCalls(store, pre, expires, d)
    ensures var (ps, end) := ParsePairs(d, pre.start, pre.count);
            !odd ==>
              && calls == Calls(store, pre, expires, ps) && success == Successes(calls)
              && (ok <==> end.Some?)
              && (ok ==> end == Some(src) && HEADER + 8 <= dest <= src <= length
                         && data[HEADER + 8..dest] == Statuses(ps, calls))
    ensures data[..HEADER + 8] == old(data[..HEADER + 8])
  {
    hide ParsePair, ParsePairs, CallFor, Calls, Field, Statuses, Successes, Stop, Negative, ShortCall, IntAt;
    ok, odd, src, dest, calls, success := true, false, pre.start, HEADER + 8, [], 0;
    ghost var done: seq<Pair> := [];
    var i := 0;
    Nothing(store, pre, expires);
    assert [] + ParsePairs(d, pre.start, pre.count).0 == ParsePairs(d, pre.start, pre.count).0;
    while i < pre.count
      invariant 0 <= i == |done| == |calls| <= pre.count && calls == Calls(store, pre, expires, done)
      invariant success == Successes(calls) && ok && !odd
      invariant HEADER + 8 <= dest && dest + 4 <= src <= length && data[src..length] == d[src..]
      invariant data[HEADER + 8..dest] == Statuses(done, calls) && data[..HEADER + 8] == old(data[..HEADER + 8])
      invariant ParsePairs(d, pre.start, pre.count) ==
        (done + ParsePairs(d, src, pre.count - i).0, ParsePairs(d, src, pre.count - i).1)
      invariant Stop(d, pre.start, pre.count) == Stop(d, src, pre.count - i)
    {
      ParseStep(d, src, pre.count - i, done);
      ghost var before, at, from := data[..dest], dest, src;
      var turn;
      turn, src, dest := SetPair(data, d, length, src, dest, i, pre, expires, store);
      if !turn.Done? {
        ok, odd := false, !turn.Refused?;
        assert done + [] == done;
        Kept(data[..at], before, at, at, []);
        Piece(data[..], at, 0, HEADER + 8);
        if turn.Short? {
          calls := calls + [turn.call];
        }
        return;
      }
      ghost var pair := ParsePair(d, from).value.0;
      Kept(data[..], before, dest, at, Field(pair.key) + [turn.call.result % 256]);
      Snoc(store, pre, expires, done, calls, pair);
      if turn.call.result == 0 {
        success := success + 1;
      }
      calls := calls + [turn.call];
      done := done + [pair];
      i := i + 1;
    }
    ParseEnd(d, src);
    assert done + [] == done;
  }

  lemma Nothing(store: Store, pre: Prefix, expires: int)
    ensures Calls(store, pre, expires, []) == [] && Successes([]) == 0 && Statuses([], []) == []
  {
  }

  lemma Kept(now: seq<Byte>, before: seq<Byte>, dest: nat, at: nat, more: seq<Byte>)
    requires HEADER + 8 <= at == |before| && dest <= |now| && now[..dest] == before + more
    ensures now[..HEADER + 8] == before[..HEADER + 8]
    ensures now[HEADER + 8..dest] == before[HEADER + 8..] + more
  {
  }

  /** The handler's answer to the message `d`: result code, and the response body if there is one. */
  datatype Answer = Answer(result: int, body: Option<seq<Byte>>)

  /** Parse the whole request, then set its pairs one after the other. */
  function CallsOf(d: seq<Byte>, served: bool, now: int, store: Store): seq<Call>
    requires |d| >= HEADER
  {
    var pre := ParsePrefix(d);
    if !served || pre.None? then []
    else Calls(store, pre.value, ExpiresOf(d, now), ParsePairs(d, pre.value.start, pre.value.count).0)
  }

  function ExpiresOf(d: seq<Byte>, now: int): int
    requires |d| >= HEADER
  {
    Replication.Rebased(IntAt(d, 8), IntAt(d, 12), now)
  }

  function AnswerTo(d: seq<Byte>, served: bool, now: int, store: Store): Answer
    requires |d| >= HEADER
  {
    var pre := ParsePrefix(d);
    if !served || pre.None? then Answer(EINVAL, None)
    else
      var (ps, end) := ParsePairs(d, pre.value.start, pre.value.count);
      var calls := CallsOf(d, served, now, store);
      if end != Some(|d|) then Answer(EINVAL, None)
      else if Successes(calls) > 0 then Answer(0, Some(Response(ps, calls)))
      else Answer(calls[|calls| - 1].result, None)
  }

  lemma Piece(s: seq<Byte>, length: nat, a: nat, b: nat)
    requires a <= b <= length <= |s|
    ensures s[..length][a..b] == s[a..b]
  {
  }

  lemma CallsLength(store: Store, pre: Prefix, expires: int, ps: seq<Pair>)
    ensures |Calls(store, pre, expires, ps)| == |ps|
  {
  }

  /** Success count and expiry complete a response whose key count and statuses are in place. */
  method Finish(data: array<Byte>, dest: nat, count: nat, success: nat, expires: int, ghost statuses: seq<Byte>)
    requires HEADER + 8 <= dest <= data.Length
    requires data[HEADER..HEADER + 4] == PutInt(count) && data[HEADER + 8..dest] == statuses
    modifies data
    ensures data[HEADER..dest] == PutInt(count) + PutInt(success) + statuses
    ensures data[12..16] == PutInt(expires)
  {
    hide PutInt, Overwrite;
    ghost var a, s, e := data[..], PutInt(success), PutInt(expires);
    PutIntAt(data, HEADER + 4, success);
    ghost var b := data[..];
    Written(a, HEADER + 4, s);
    Elsewhere(a, HEADER + 4, s, HEADER, HEADER + 4);
    Elsewhere(a, HEADER + 4, s, HEADER + 8, dest);
    PutIntAt(data, 12, expires);
    Written(b, 12, e);
    Elsewhere(b, 12, e, HEADER, dest);
    assert data[HEADER..dest] == b[HEADER..dest];
    assert b[HEADER..dest] == b[HEADER..HEADER + 4] + b[HEADER + 4..HEADER + 8] + b[HEADER + 8..dest];
  }

  /** The checks before the pairs, read from the message in place. */
  method ReadPrefix(data: array<Byte>, length: nat) returns (pre: Option<Prefix>)
    requires HEADER <= length <= data.Length
    ensures pre == ParsePrefix(data[..length])
  {
    hide GetInt;
    var n := length - HEADER;
    if n <= 20 {
      return None;
    }
    Piece(data[..], length, HEADER, HEADER + 4);
    var s := GetInt(data[HEADER..HEADER + 4]);
    if s < 0 || s > MAX_NAMESPACE || n <= 20 + s {
      return None;
    }
    var a := HEADER + 4 + s;
    Piece(data[..], length, a, a + 4);
    var o := GetInt(data[a..a + 4]);
    if o < 0 || o > MAX_OBJECT_ID || n <= 20 + s + o {
      return None;
    }
    var b := a + 4 + o;
    Piece(data[..], length, b, b + 4);
    var count := GetInt(data[b..b + 4]);
    if count <= 0 || count > MAX_KEYS {
      return None;
    }
    Piece(data[..], length, HEADER + 4, a);
    Piece(data[..], length, a + 4, b);
    pre := Some(Prefix(data[HEADER + 4..a], data[a + 4..b], count, b + 4));
  }

  /** Reading stops at a value with a negative length. */
  predicate Odd(d: seq<Byte>, served: bool)
    requires |d| >= HEADER
  {
    served && ParsePrefix(d).Some? && StopsNegative(d, ParsePrefix(d).value)
  }

  /**
    `deal_cmd_batch_set`. Although the response overwrites the request while it is being read, calls
    and answer are those of parsing the whole message first, unless reading comes to a value with a
    negative length. Then, and only then, the store is asked for more than that, if it can be asked
    for so little, and `odd` says that the model stops there. `served` says whether the key's group
    lives on this server.
   */
  method Handle(data: array<Byte>, length0: nat, served: bool, now: int, store: Store)
    returns (result: int, length: nat, calls: seq<Call>, odd: bool)
    requires HEADER <= length0 <= data.Length
    modifies data
    ensures odd <==> Odd(old(data[..length0]), served)
    ensures var d := old(data[..length0]);
            odd ==> calls == OddCalls(store, ParsePrefix(d).value, ExpiresOf(d, now), d)
    ensures var d := old(data[..length0]);
            var a := AnswerTo(d, served, now, store);
            !odd ==>
              && calls == CallsOf(d, served, now, store) && result == a.result
              && HEADER <= length <= length0
              && data[HEADER..length] == (if a.body.Some? then a.body.value else [])
              && (a.body.Some? ==> data[12..16] == PutInt(ExpiresOf(d, now)))
  {
    hide ParsePrefix, ParsePairs, Calls, Statuses, Successes, GetInt, PutInt, Replication.Rebased, Overwrite,
      StopsNegative, OddCalls;
    ghost var d := data[..length0];
    Piece(data[..], length0, 8, 12);
    Piece(data[..], length0, 12, 16);
    var expires := Replication.Rebased(GetInt(data[8..12]), GetInt(data[12..16]), now);
    result, length, calls, odd := EINVAL, HEADER, [], false;
    if !served {
      return;
    }
    var pre := ReadPrefix(data, length0);
    if pre.None? {
      return;
    }
    var count := pre.value.count;
    ghost var was := data[..];
    PutIntAt(data, HEADER, count);
    Counted(was, d, count, pre.value.start);
    ghost var counted := data[..];
    var ok, src, dest, success;
    ok, odd, src, dest, calls, success := SetPairs(data, d, length0, pre.value, expires, store);
    CallsLength(store, pre.value, expires, ParsePairs(d, pre.value.start, count).0);
    if !ok || src != length0 {
      return;
    }
    if success > 0 {
      Piece(counted, HEADER + 8, HEADER, HEADER + 4);
      Piece(data[..], HEADER + 8, HEADER, HEADER + 4);
      Finish(data, dest, count, success, expires, data[HEADER + 8..dest]);
      result, length := 0, dest;
    } else {
      result := calls[|calls| - 1].result;
    }
  }

  /** If the store can be asked at all, it is asked once more than for a message parsed first. */
  lemma OddDiffers(store: Store, pre: Prefix, expires: int, d: seq<Byte>)
    requires StopsNegative(d, pre)
    ensures var p := Stop(d, pre.start, pre.count);
            var calls := Calls(store, pre, expires, ParsePairs(d, pre.start, pre.count).0);
            OddCalls(store, pre, expires, d) == calls <==> IntAt(d, p + 4 + IntAt(d, p)) < -4
  {
    hide ParsePairs, Stop, Calls, ShortCall;
  }

  /** Two pairs announced; one key, four bytes for its value's length, and eight bytes more. */
  function OddMessage(length: seq<Byte>): seq<Byte> {
    seq(HEADER, _ => 0) + [0, 0, 0, 0] + [0, 0, 0, 0] + [0, 0, 0, 2] + [0, 0, 0, 1] + [97] + length
    + [0, 0, 1, 98, 0, 0, 0, 0]
  }

  lemma OddPieces(length: seq<Byte>)
    requires |length| == 4
    ensures var d := OddMessage(length);
            && |d| == HEADER + 29 && d[8..12] == [0, 0, 0, 0] && d[12..16] == [0, 0, 0, 0]
            && d[HEADER..HEADER + 4] == [0, 0, 0, 0] && d[HEADER + 4..HEADER + 8] == [0, 0, 0, 0]
            && d[HEADER + 8..HEADER + 12] == [0, 0, 0, 2] && d[HEADER + 12..HEADER + 16] == [0, 0, 0, 1]
            && d[HEADER + 16..HEADER + 17] == [97] && d[HEADER + 17..HEADER + 21] == length
            && d[HEADER + 20..HEADER + 24] == [length[3], 0, 0, 1] && d[HEADER + 24..HEADER + 25] == [98]
            && d[HEADER + 25..HEADER + 29] == [0, 0, 0, 0]
  {
  }

  lemma OddAnswer()
    ensures |OddMessage([255, 255, 255, 255])| == HEADER + 29
    ensures Overwrite(OddMessage([255, 255, 255, 255]), HEADER + 17, [0, 0, 0, 0]) == OddMessage([0, 0, 0, 0])
  {
  }

  lemma OddStops()
    ensures var d := OddMessage([255, 255, 255, 255]);
            && |d| == HEADER + 29 && Odd(d, true) && ExpiresOf(d, 0) == 0 && ParsePair(d, HEADER + 20).None?
  {
    hide GetInt, PutInt, OddMessage;
    OddNumbers();
    OddPieces([255, 255, 255, 255]);
    var d := OddMessage([255, 255, 255, 255]);
    assert d[HEADER + 4..HEADER + 4] == [] && d[HEADER + 8..HEADER + 8] == [];
    assert ParsePrefix(d) == Some(Prefix([], [], 2, HEADER + 12));
    assert Negative(d, HEADER + 12) && ParsePair(d, HEADER + 12).None?;
  }

  lemma OddGoesOn()
    ensures var b := OddMessage([0, 0, 0, 0]);
            |b| == HEADER + 29 && ParsePair(b, HEADER + 20) == Some((Pair([98], []), HEADER + 29))
  {
    hide GetInt, PutInt, OddMessage;
    OddNumbers();
    OddPieces([0, 0, 0, 0]);
    var b := OddMessage([0, 0, 0, 0]);
    assert b[HEADER + 29..HEADER + 29] == [];
  }

  lemma OddNumbers()
    ensures GetInt([0, 0, 0, 0]) == 0 && GetInt([0, 0, 0, 1]) == 1 && GetInt([0, 0, 0, 2]) == 2
    ensures GetInt([255, 255, 255, 255]) == -1 && GetInt([255, 0, 0, 1]) < 0 && PutInt(0) == [0, 0, 0, 0]
  {
  }

  /**
    A message in which this matters: the first value has length -1, and its last byte, overwritten by
    that of the expiry, starts the next pair. The message has no second pair, but the buffer then has.
   */
  lemma NegativeLength()
    ensures var d := OddMessage([255, 255, 255, 255]);
            && |d| == HEADER + 29 && Odd(d, true) && ExpiresOf(d, 0) == 0
            && ParsePair(d, HEADER + 20).None?
            && Overwrite(d, HEADER + 17, PutInt(0)) == OddMessage([0, 0, 0, 0])
            && ParsePair(OddMessage([0, 0, 0, 0]), HEADER + 20) == Some((Pair([98], []), |d|))
  {
    hide GetInt, PutInt, ParsePair, Odd, ExpiresOf, Overwrite, OddMessage;
    OddStops();
    OddGoesOn();
    OddNumbers();
    OddAnswer();
  }

  /** Writing the key count does not touch the pairs. */
  lemma Counted(s: seq<Byte>, d: seq<Byte>, count: nat, start: nat)
    requires HEADER + 12 <= start <= |d| <= |s| && d == s[..|d|]
    ensures var t := Overwrite(s, HEADER, PutInt(count));
            |t| == |s| && t[start..|d|] == d[start..] && t[HEADER..HEADER + 4] == PutInt(count)
  {
  }

  /** The client's reading of `count` keys and statuses from position `p`. */
  function Unpack(s: seq<Byte>, p: nat, count: nat): Option<seq<(seq<Byte>, Byte)>>
    decreases count
  {
    if count == 0 then Some([])
    else if p + 4 > |s| then None
    else
      var k := IntAt(s, p);
      if k < 0 || p + 5 + k > |s| then None
      else
        var rest := Unpack(s, p + 5 + k, count - 1);
        if rest.None? then None else Some([(s[p + 4..p + 4 + k], s[p + 4 + k])] + rest.value)
  }

  /** What each pair should come back as. */
  function Verdicts(ps: seq<Pair>, calls: seq<Call>): seq<(seq<Byte>, Byte)>
    requires |ps| == |calls|
  {
    seq(|ps|, i requires 0 <= i < |ps| => (ps[i].key, calls[i].result % 256))
  }

  lemma {:induction false} StatusesCons(ps: seq<Pair>, calls: seq<Call>)
    requires |ps| == |calls| > 0
    ensures Statuses(ps, calls) == Field(ps[0].key) + [calls[0].result % 256] + Statuses(ps[1..], calls[1..])
    decreases |ps|
  {
    hide Field;
    var n := |ps| - 1;
    if n == 0 {
      assert ps[..0] == [] && ps[1..] == [];
    } else {
      StatusesCons(ps[..n], calls[..n]);
      assert ps[..n][1..] == ps[1..][..n - 1] && calls[..n][1..] == calls[1..][..n - 1];
    }
  }

  lemma {:induction false} StatusesRoundTrip(a: seq<Byte>, ps: seq<Pair>, calls: seq<Call>)
    requires |ps| == |calls| && forall i | 0 <= i < |ps| :: SendablePair(ps[i])
    ensures Unpack(a + Statuses(ps, calls), |a|, |ps|) == Some(Verdicts(ps, calls))
    decreases |ps|
  {
    hide Statuses, Unpack, Field;
    if ps == [] {
      UnpackNone(a + Statuses(ps, calls), |a|);
    } else {
      StatusesCons(ps, calls);
      var key, status := ps[0].key, calls[0].result % 256;
      var rest := Statuses(ps[1..], calls[1..]);
      var b := a + Field(key) + [status];
      assert a + Statuses(ps, calls) == b + rest;
      UnpackOne(a, key, status, rest, |ps| - 1);
      StatusesRoundTrip(b, ps[1..], calls[1..]);
      assert Verdicts(ps, calls) == [(key, status)] + Verdicts(ps[1..], calls[1..]);
    }
  }

  lemma UnpackNone(s: seq<Byte>, p: nat)
    ensures Unpack(s, p, 0) == Some([])
  {
  }

  lemma UnpackOne(a: seq<Byte>, key: seq<Byte>, status: Byte, rest: seq<Byte>, count: nat)
    requires |key| <= INT32_MAX
    ensures var b := a + Field(key) + [status];
            var more := Unpack(b + rest, |b|, count);
            Unpack(b + rest, |a|, count + 1)
              == if more.None? then None else Some([(key, status)] + more.value)
  {
    hide GetInt, PutInt;
    var s := a + Field(key) + [status] + rest;
    assert s == a + Field(key) + ([status] + rest);
    FieldAt(a, key, [status] + rest);
    assert s[|a| + 4 + |key|] == status;
  }

  lemma HeaderTimes(length: int, hash: int, timestamp: int, expires: int, flags: seq<Byte>, body: seq<Byte>, now: int)
    requires |flags| == 3 && IsInt32(timestamp) && IsInt32(expires)
    ensures var d := PackHeader(length, hash, timestamp, expires, flags) + body;
            ExpiresOf(d, now) == if timestamp > 0 && expires > 0 then ToInt32(now + expires - timestamp) else expires
  {
    hide PutInt, GetInt;
    var d := PackHeader(length, hash, timestamp, expires, flags) + body;
    assert d[8..12] == PutInt(timestamp) && d[12..16] == PutInt(expires);
    GetPutInt(timestamp, []);
    GetPutInt(expires, []);
    assert PutInt(timestamp) + [] == PutInt(timestamp) && PutInt(expires) + [] == PutInt(expires);
  }

  /** The store is asked for each pair in turn, under its full key, with the expiry in front of the value. */
  ghost predicate Stores(calls: seq<Call>, r: Request, expires: int, store: Store) {
    && |calls| == |r.pairs|
    && forall i | 0 <= i < |calls| ::
         && calls[i].key == r.space + [1] + r.id + [1] + r.pairs[i].key
         && calls[i].value == PutInt(expires) + r.pairs[i].value
         && calls[i].result == store(i, calls[i].key, calls[i].value)
  }

  lemma CallsStore(store: Store, pre: Prefix, expires: int, r: Request)
    requires pre.space == r.space && pre.id == r.id
    ensures Stores(Calls(store, pre, expires, r.pairs), r, expires, store)
  {
    hide PutInt;
  }

  /**
    Client to server and back, for every request the client can send: the server sets each pair in
    order, with the expiry counted from its own clock, and if any set succeeds the response has the
    length the client checks and reads back as the key count, the number of successes and every key
    with its own status.
   */
  lemma EndToEnd(length: int, hash: int, timestamp: int, expires: int, flags: seq<Byte>, r: Request, now: int,
                 store: Store)
    requires |flags| == 3 && IsInt32(timestamp) && IsInt32(expires) && Sendable(r)
    ensures var d := PackHeader(length, hash, timestamp, expires, flags) + PackBody(r);
            var calls := CallsOf(d, true, now, store);
            var answer := AnswerTo(d, true, now, store);
            && Stores(calls, r,
                      if timestamp > 0 && expires > 0 then ToInt32(now + expires - timestamp) else expires, store)
            && (Successes(calls) == 0 ==> answer == Answer(calls[|calls| - 1].result, None))
            && (Successes(calls) > 0 ==>
                  && answer.result == 0 && answer.body.Some?
                  && |answer.body.value| == 8 + 5 * |r.pairs| + KeyBytes(r.pairs)
                  && IntAt(answer.body.value, 0) == |r.pairs|
                  && IntAt(answer.body.value, 4) == Successes(calls)
                  && Unpack(answer.body.value, 8, |r.pairs|) == Some(Verdicts(r.pairs, calls)))
  {
    hide ParsePrefix, ParsePairs, PackBody, Calls, Successes, Statuses, GetInt, PutInt, Unpack, SendablePair,
      Replication.Rebased, ExpiresOf, Stores, PackHeader;
    var header := PackHeader(length, hash, timestamp, expires, flags);
    RequestRoundTrip(header, r);
    var d := header + PackBody(r);
    HeaderTimes(length, hash, timestamp, expires, flags, PackBody(r), now);
    var pre := Prefix(r.space, r.id, |r.pairs|, HEADER + 12 + |r.space| + |r.id|);
    var calls := Calls(store, pre, ExpiresOf(d, now), r.pairs);
    CallsLength(store, pre, ExpiresOf(d, now), r.pairs);
    CallsStore(store, pre, ExpiresOf(d, now), r);
    ResponseLength(r.pairs, calls);
    SuccessBound(calls);
    var n, c, body := PutInt(|r.pairs|), PutInt(Successes(calls)), Response(r.pairs, calls);
    assert body[0..4] == n && body[4..8] == c;
    GetPutInt(|r.pairs|, []);
    GetPutInt(Successes(calls), []);
    assert n + [] == n && c + [] == c;
    StatusesRoundTrip(n + c, r.pairs, calls);
  }

  lemma {:induction false} SuccessBound(calls: seq<Call>)
    ensures Successes(calls) <= |calls|
    decreases |calls|
  {
    if calls != [] {
      SuccessBound(calls[..|calls| - 1]);
    }
  }
}
