/**
  Replication between peers, seen as records. Every server has a store, the records it has
  logged, and one reader per peer that ships them; request handlers are atomic steps.
 */
module Replication {
  import opened Bytes
  import opened RecordCodec

  type FullKey = seq<Byte>
  type Store = map<FullKey, seq<Byte>>

  const KEY_SEPARATOR: Byte := 1

  /** `FDHT_PACK_FULL_KEY`: what the store is indexed by. */
  function Pack(k: KeyInfo): FullKey {
    k.ns + [KEY_SEPARATOR] + k.objId + [KEY_SEPARATOR] + k.key
  }

  function KeyOf(r: Record): FullKey { Pack(r.info) }

  /** The stored value starts with its expiry. */
  function StoredValue(r: Record): seq<Byte> { PutInt(r.expires) + r.value }

  /** The effect of a set or delete command on a store. */
  function Apply(st: Store, r: Record): Store {
    if IsSet(r) then st[KeyOf(r) := StoredValue(r)] else st - {KeyOf(r)}
  }

  function Replay(h: seq<Record>): (st: Store) {
    if h == [] then map[] else Apply(Replay(h[..|h| - 1]), h[|h| - 1])
  }

  /** The store agrees with `other` on one key. */
  predicate SameAt(st: Store, other: Store, k: FullKey) {
    if k in st then k in other && st[k] == other[k] else k !in other
  }

  /** A get at time t finds the key: its value has not expired (`deal_cmd_get`). */
  predicate VisibleAt(st: Store, k: FullKey, t: int) {
    k in st && |st[k]| >= 4 && (GetInt(st[k]) == 0 || GetInt(st[k]) >= t)
  }

  /** `fdht_sync_data`: what a reader sends for a record it has read; None when it skips it. */
  function Transmit(r: Record, needSyncOld: bool, syncOldDone: bool, until: int, now: int): (m: Option<Record>) {
    var sent := r.(timestamp := ToInt32(r.timestamp), expires := ToInt32(r.expires));
    if r.expires != 0 && r.expires < now then None
    else if r.op == SOURCE_SET then Some(sent.(op := REPLICA_SET))
    else if r.op == SOURCE_DEL then Some(sent.(op := REPLICA_DEL, value := [], expires := 0))
    else if !needSyncOld || syncOldDone || r.timestamp > until then None
    else if r.op == REPLICA_SET then Some(sent)
    else if r.op == REPLICA_DEL then Some(sent.(value := [], expires := 0))
    else None
  }

  /** A copy of a record as it is sent. */
  function Replica(r: Record): Record {
    r.(op := if IsSet(r) then REPLICA_SET else REPLICA_DEL)
  }

  /** `CHECK_GROUP_ID`: a server counts the time a value has left from its own clock. */
  function Rebased(timestamp: int, expires: int, clock: int): int {
    if timestamp > 0 && expires > 0 then ToInt32(clock + (expires - timestamp)) else expires
  }

  /** The record of a command as the receiving server sees it. */
  function Received(r: Record, clock: int): Record {
    r.(expires := Rebased(r.timestamp, r.expires, clock))
  }

  /**
    The receiver shows a value for as many seconds as were left when the command was stamped, unless the
    sum leaves the 32-bit range; no stamp or no positive expiry leaves the expiry alone.
   */
  lemma RebasedShows(timestamp: int, expires: int, clock: int, value: seq<Byte>, k: FullKey, seconds: int)
    requires IsInt32(expires)
    ensures var e := Rebased(timestamp, expires, clock);
            var st: Store := map[k := PutInt(e) + value];
            if timestamp > 0 && expires > 0 then
              0 != clock + (expires - timestamp) && IsInt32(clock + (expires - timestamp)) ==>
                (VisibleAt(st, k, clock + seconds) <==> seconds <= expires - timestamp)
            else e == expires
  {
    hide PutInt, GetInt;
    GetPutInt(Rebased(timestamp, expires, clock), value);
  }

  /** The record is skipped at that time. */
  predicate ExpiredAt(r: Record, now: int) { LowHalf(r.expires) != 0 && LowHalf(r.expires) < now }

  /** Times within the C types, and nothing but a key in a delete. */
  predicate Proper(r: Record) {
    IsInt32(r.timestamp) && IsInt32(r.expires) && (IsSet(r) || (r.value == [] && r.expires == 0))
  }

  /** What a finished reader does with a record of the log: ship source records that have not expired. */
  lemma TransmitIs(r: Record, now: int)
    requires Proper(r) && ValidOp(r.op)
    ensures Transmit(AsRead(r), true, true, 0, now)
         == if IsSource(r) && !ExpiredAt(r, now) then Some(Replica(r)) else None
  {
  }

  /**
    A peer that joined later is sent, until its old data is synchronised, also the replica records up to
    the time it joined, as they are; all others it is sent as replicas.
   */
  lemma OldDataIs(r: Record, needSyncOld: bool, syncOldDone: bool, until: int, now: int)
    requires Proper(r) && ValidOp(r.op)
    ensures Transmit(AsRead(r), needSyncOld, syncOldDone, until, now)
         == if ExpiredAt(r, now) then None
            else if IsSource(r) then Some(Replica(r))
            else if needSyncOld && !syncOldDone && LowHalf(r.timestamp) <= until then Some(r)
            else None
  {
  }

  // ---------- the system ----------

  /**
    Reader of one peer: records passed, and the position in its mark file. The rest is bookkeeping:
    keys whose last record passed was skipped as expired, and when; and what the peer's clock said
    when it took commands.
   */
  datatype Reader = Reader(pos: nat, mark: nat, skipped: map<FullKey, int>, clocks: set<int>)

  /**
    `lost` is bookkeeping: keys a failed set has unlinked from the store without a log record,
    until the next logged write to them.
   */
  datatype Server = Server(
    store: Store, hist: seq<Record>, flushed: nat, readers: seq<Reader>, lost: set<FullKey>)

  /** `owner` says through which server each key is written. */
  datatype System = System(servers: seq<Server>, owner: FullKey -> nat)

  datatype Delivery = Done | AckLost | Refused(drops: bool)

  datatype Action =
    | ClientWrite(at: nat, record: Record, flushed: nat)
    | ClientWriteFails(at: nat, key: FullKey, drops: bool)
    | Flush(at: nat)
    | Ship(from: nat, to: nat, outcome: Delivery, marks: bool, now: int, clock: int, flushed: nat)
    | WriteMark(from: nat, to: nat)
    | Reconnect(from: nat, to: nat)

  /** A delete of a missing key answers ENOENT and is not logged. */
  predicate Logged(st: Store, r: Record) { IsSet(r) || KeyOf(r) in st }

  function Handle(s: Server, r: Record, flushed: nat): Server {
    if Logged(s.store, r) then
      s.(store := Apply(s.store, r), hist := s.hist + [r], flushed := flushed, lost := s.lost - {KeyOf(r)})
    else s
  }

  function Drop(s: Server, k: FullKey): Server {
    s.(store := s.store - {k}, lost := if k in s.store then s.lost + {k} else s.lost)
  }

  predicate Peers(s: System, from: nat, to: nat) {
    from < |s.servers| && to < |s.servers| && from != to && to < |s.servers[from].readers|
  }

  predicate FlushRange(s: Server, r: Record, flushed: nat) {
    s.flushed <= flushed <= |s.hist| + if Logged(s.store, r) then 1 else 0
  }

  predicate Enabled(s: System, a: Action) {
    match a
    case ClientWrite(i, r, f) =>
      && i < |s.servers| && IsSource(r) && Proper(r)
      && s.owner(KeyOf(r)) == i && FlushRange(s.servers[i], r, f)
    case ClientWriteFails(i, k, _) => i < |s.servers| && s.owner(k) == i
    case Flush(i) => i < |s.servers|
    case Ship(i, j, _, _, _, _, f) =>
      && Peers(s, i, j)
      && var rd := s.servers[i].readers[j];
         && rd.pos < s.servers[i].flushed <= |s.servers[i].hist|
         && FlushRange(s.servers[j], Replica(s.servers[i].hist[rd.pos]), f)
    case WriteMark(i, j) => Peers(s, i, j)
    case Reconnect(i, j) => Peers(s, i, j)
  }

  /** What the receiving server does with a transmitted record, by outcome. */
  function Receive(s: Server, r: Record, outcome: Delivery, flushed: nat): Server {
    match outcome
    case Done => Handle(s, r, flushed)
    case AckLost => Handle(s, r, flushed)
    case Refused(drops) => if drops && IsSet(r) then s.(store := s.store - {KeyOf(r)}) else s
  }

  /** The reader moves on only when the command was acknowledged or the record skipped. */
  function Advance(rd: Reader, r: Record, sent: bool, outcome: Delivery, marks: bool, now: int, clock: int): Reader {
    Reader(if sent && outcome != Done then rd.pos else rd.pos + 1, if marks then rd.pos else rd.mark,
           Skipped(rd.skipped, r, sent, outcome, now),
           if sent && !outcome.Refused? then rd.clocks + {clock} else rd.clocks)
  }

  function Skipped(skipped: map<FullKey, int>, r: Record, sent: bool, outcome: Delivery, now: int)
    : map<FullKey, int>
  {
    if IsSource(r) && !sent then skipped[KeyOf(r) := now]
    else if sent && outcome == Done then skipped - {KeyOf(r)}
    else skipped
  }

  function SetReader(s: System, i: nat, j: nat, rd: Reader): System
    requires Peers(s, i, j)
  {
    s.(servers := s.servers[i := s.servers[i].(readers := s.servers[i].readers[j := rd])])
  }

  function Do(s: System, a: Action): (t: System)
    requires Enabled(s, a)
  {
    match a
    case ClientWrite(i, r, f) => s.(servers := s.servers[i := Handle(s.servers[i], r, f)])
    case ClientWriteFails(i, k, drops) =>
      if drops then s.(servers := s.servers[i := Drop(s.servers[i], k)]) else s
    case Flush(i) => s.(servers := s.servers[i := s.servers[i].(flushed := |s.servers[i].hist|)])
    case Ship(i, j, outcome, marks, now, clock, f) =>
      var rd := s.servers[i].readers[j];
      var r := s.servers[i].hist[rd.pos];
      // peers whose old-data sync is finished
      var sent := Transmit(AsRead(r), true, true, 0, now);
      var u := SetReader(s, i, j, Advance(rd, r, sent.Some?, outcome, marks, now, clock));
      if sent.None? then u
      else u.(servers := u.servers[j := Receive(u.servers[j], Received(sent.value, clock), outcome, f)])
    case WriteMark(i, j) =>
      var rd := s.servers[i].readers[j];
      SetReader(s, i, j, rd.(mark := rd.pos))
    case Reconnect(i, j) =>
      var rd := s.servers[i].readers[j];
      SetReader(s, i, j, rd.(pos := rd.mark))
  }

  // ---------- invariant ----------

  /** Record t is the last one of the key. */
  predicate LastWrite(h: seq<Record>, t: nat, k: FullKey) {
    t < |h| && KeyOf(h[t]) == k && forall u :: t < u < |h| ==> KeyOf(h[u]) != k
  }

  /** The value of the key's last record, its expiry counted by one of the clocks. */
  ghost predicate LastValue(value: seq<Byte>, h: seq<Record>, k: FullKey, clocks: set<int>) {
    exists t: nat, c :: LastWrite(h, t, k) && c in clocks && value == StoredValue(Received(h[t], c))
  }

  /** Of one key the store holds what the log says, up to the clock that counts its expiry. */
  ghost predicate HeldAs(st: Store, h: seq<Record>, k: FullKey, clocks: set<int>) {
    if k in Replay(h) then k in st && LastValue(st[k], h, k, clocks) else k !in st
  }

  /** It holds what the log once said. */
  ghost predicate Held(h: seq<Record>, k: FullKey, st: Store, clocks: set<int>) {
    exists q :: 0 <= q <= |h| && HeldAs(st, h[..q], k, clocks)
  }

  /**
    Key `k` at a peer whose reader stands at `p`: it has the value some prefix of the owner's log
    gives it, no shorter than p, or a record still to be shipped will overwrite it.
   */
  ghost predicate Pending(h: seq<Record>, p: nat, k: FullKey, st: Store, clocks: set<int>) {
    || (exists q :: p <= q <= |h| && HeldAs(st, h[..q], k, clocks))
    || (exists t :: p <= t < |h| && IsSource(h[t]) && KeyOf(h[t]) == k)
  }

  /** A key that has been skipped has a record; its last one, once passed, had expired by then. */
  ghost predicate SkippedOk(h: seq<Record>, p: nat, k: FullKey, time: int) {
    && (exists t :: 0 <= t < |h| && KeyOf(h[t]) == k)
    && forall t :: 0 <= t < p && LastWrite(h, t, k) ==> ExpiredAt(h[t], time)
  }

  ghost predicate ReaderOk(s: System, i: nat, j: nat) {
    && Peers(s, i, j)
    && var rd := s.servers[i].readers[j];
    && rd.mark <= rd.pos <= s.servers[i].flushed
    && (forall k :: s.owner(k) == i ==> KeyOk(s.servers[i].hist, rd, k, s.servers[j].store))
  }

  ghost predicate KeyOk(h: seq<Record>, rd: Reader, k: FullKey, st: Store) {
    && Held(h, k, st, rd.clocks)
    && if k in rd.skipped then SkippedOk(h, rd.pos, k, rd.skipped[k]) else Pending(h, rd.pos, k, st, rd.clocks)
  }

  predicate RecordOk(owner: FullKey -> nat, i: nat, r: Record) {
    && ValidOp(r.op) && Proper(r)
    && (IsSource(r) <==> owner(KeyOf(r)) == i)
  }

  ghost predicate ServerOk(s: System, i: nat)
    requires i < |s.servers|
  {
    var v := s.servers[i];
    && v.flushed <= |v.hist|
    && |v.readers| == |s.servers|
    && (forall n :: 0 <= n < |v.hist| ==> RecordOk(s.owner, i, v.hist[n]))
    && (forall k :: s.owner(k) == i ==>
          if k in v.lost then k !in v.store && k in Replay(v.hist) else SameAt(v.store, Replay(v.hist), k))
  }

  /** A replica record, but for the clock that counts its expiry. */
  predicate CopyOf(r: Record, source: Record) {
    r == Replica(source).(expires := r.expires) && (source.expires <= 0 ==> r.expires == source.expires)
  }

  /** Every replica record is the copy of a source record in another server's log. */
  ghost predicate Copied(s: System, r: Record) {
    exists i, n ::
      0 <= i < |s.servers| && 0 <= n < |s.servers[i].hist|
      && IsSource(s.servers[i].hist[n]) && CopyOf(r, s.servers[i].hist[n])
  }

  ghost predicate Provenance(s: System) {
    forall j, n :: 0 <= j < |s.servers| && 0 <= n < |s.servers[j].hist| && !IsSource(s.servers[j].hist[n]) ==>
      Copied(s, s.servers[j].hist[n])
  }

  ghost predicate Inv(s: System) {
    && (forall i :: 0 <= i < |s.servers| ==> ServerOk(s, i))
    && (forall i, j :: 0 <= i < |s.servers| && 0 <= j < |s.servers| && i != j ==> ReaderOk(s, i, j))
    && Provenance(s)
  }

  lemma ReplayPrefix(h: seq<Record>, p: nat)
    requires p < |h|
    ensures Replay(h[..p + 1]) == Apply(Replay(h[..p]), h[p])
  {
    assert h[..p + 1][..p] == h[..p];
  }

  lemma HandleApplies(s: Server, r: Record, f: nat)
    ensures Handle(s, r, f).store == Apply(s.store, r)
  {
  }

  /** What a receiver makes of a record is a copy of it. */
  lemma ReceivedCopy(r: Record, clock: int)
    requires Proper(r)
    ensures CopyOf(Received(Replica(r), clock), r) && Proper(Received(Replica(r), clock))
    ensures StoredValue(Received(Replica(r), clock)) == StoredValue(Received(r, clock))
  {
    hide PutInt;
  }

  /** A record of another key changes nothing. */
  lemma HeldPast(h: seq<Record>, p: nat, k: FullKey, st: Store, clocks: set<int>)
    requires p < |h| && KeyOf(h[p]) != k && HeldAs(st, h[..p], k, clocks)
    ensures HeldAs(st, h[..p + 1], k, clocks)
  {
    hide Replay, StoredValue, Received, KeyOf;
    ReplayPrefix(h, p);
    var g, g' := h[..p], h[..p + 1];
    if k in Replay(g) {
      var t: nat, c :| LastWrite(g, t, k) && c in clocks && st[k] == StoredValue(Received(g[t], c));
      assert g'[t] == g[t];
      assert LastWrite(g', t, k);
    }
  }

  /** A peer that has taken a record holds what the log says up to it. */
  lemma HeldNow(h: seq<Record>, p: nat, st: Store, clock: int, clocks: set<int>)
    requires p < |h| && Proper(h[p]) && clock in clocks
    ensures HeldAs(Apply(st, Received(Replica(h[p]), clock)), h[..p + 1], KeyOf(h[p]), clocks)
  {
    hide Replay, StoredValue;
    ReplayPrefix(h, p);
    ReceivedCopy(h[p], clock);
    assert LastWrite(h[..p + 1], p, KeyOf(h[p]));
  }

  lemma HeldMore(st: Store, st': Store, h: seq<Record>, k: FullKey, clocks: set<int>, more: set<int>)
    requires HeldAs(st, h, k, clocks) && SameAt(st', st, k) && clocks <= more
    ensures HeldAs(st', h, k, more)
  {
    hide Replay, StoredValue, Received, LastWrite;
  }

  lemma HeldKeeps(st: Store, st': Store, h: seq<Record>, k: FullKey, clocks: set<int>, more: set<int>)
    requires Held(h, k, st, clocks) && SameAt(st', st, k) && clocks <= more
    ensures Held(h, k, st', more)
  {
    hide HeldAs;
    var q :| 0 <= q <= |h| && HeldAs(st, h[..q], k, clocks);
    HeldMore(st, st', h[..q], k, clocks, more);
  }

  lemma AbsentHeld(h: seq<Record>, k: FullKey, st: Store, clocks: set<int>)
    requires k !in st
    ensures Held(h, k, st, clocks)
  {
    assert HeldAs(st, h[..0], k, clocks);
  }

  /** Shipping a source record brings the peer one record further. */
  lemma PendingShip(h: seq<Record>, p: nat, k: FullKey, st: Store, clock: int, clocks: set<int>, more: set<int>)
    requires p < |h| && IsSource(h[p]) && Proper(h[p]) && clocks <= more && clock in more
    requires KeyOf(h[p]) == k || Pending(h, p, k, st, clocks)
    ensures Pending(h, p + 1, k, Apply(st, Received(Replica(h[p]), clock)), more)
  {
    hide HeldAs, StoredValue;
    var st' := Apply(st, Received(Replica(h[p]), clock));
    if KeyOf(h[p]) == k {
      HeldNow(h, p, st, clock, more);
    } else if q :| p <= q <= |h| && HeldAs(st, h[..q], k, clocks) {
      HeldMore(st, st', h[..q], k, clocks, more);
      if q == p {
        HeldPast(h, p, k, st', more);
      }
    }
  }

  /** Skipping a record of another key leaves the key as it is. */
  lemma PendingSkip(h: seq<Record>, p: nat, k: FullKey, st: Store, clocks: set<int>)
    requires p < |h| && Pending(h, p, k, st, clocks) && KeyOf(h[p]) != k
    ensures Pending(h, p + 1, k, st, clocks)
  {
    hide HeldAs;
    if q :| p <= q <= |h| && HeldAs(st, h[..q], k, clocks) {
      if q == p {
        HeldPast(h, p, k, st, clocks);
      }
    }
  }

  lemma HeldGrow(h: seq<Record>, r: Record, k: FullKey, st: Store, clocks: set<int>)
    requires Held(h, k, st, clocks)
    ensures Held(h + [r], k, st, clocks)
  {
    hide HeldAs;
    var q :| 0 <= q <= |h| && HeldAs(st, h[..q], k, clocks);
    assert (h + [r])[..q] == h[..q];
  }

  lemma SkippedGrow(h: seq<Record>, r: Record, p: nat, k: FullKey, time: int)
    requires SkippedOk(h, p, k, time) && p <= |h|
    ensures SkippedOk(h + [r], p, k, time)
  {
    hide ExpiredAt, KeyOf;
    var h' := h + [r];
    var m :| 0 <= m < |h| && KeyOf(h[m]) == k;
    assert KeyOf(h'[m]) == k;
    forall t | 0 <= t < p && LastWrite(h', t, k) ensures ExpiredAt(h'[t], time) {
      assert h'[t] == h[t];
      forall u | t < u < |h| ensures KeyOf(h[u]) != k { assert h'[u] == h[u]; }
      assert LastWrite(h, t, k);
    }
  }

  lemma KeyOkGrow(h: seq<Record>, r: Record, rd: Reader, k: FullKey, st: Store)
    requires KeyOk(h, rd, k, st) && rd.pos <= |h|
    ensures KeyOk(h + [r], rd, k, st)
  {
    hide HeldAs, SkippedOk, Held;
    var h' := h + [r];
    HeldGrow(h, r, k, st, rd.clocks);
    if k in rd.skipped {
      SkippedGrow(h, r, rd.pos, k, rd.skipped[k]);
    } else if q :| rd.pos <= q <= |h| && HeldAs(st, h[..q], k, rd.clocks) {
      assert h'[..q] == h[..q];
    } else {
      var t :| rd.pos <= t < |h| && IsSource(h[t]) && KeyOf(h[t]) == k;
      assert h'[t] == h[t];
    }
  }

  /** Only key `k` matters to it. */
  lemma KeyOkFrame(h: seq<Record>, rd: Reader, k: FullKey, st: Store, st': Store)
    requires KeyOk(h, rd, k, st) && SameAt(st', st, k)
    ensures KeyOk(h, rd, k, st')
  {
    hide HeldAs, SameAt, SkippedOk, Held;
    HeldKeeps(st, st', h, k, rd.clocks, rd.clocks);
    if k !in rd.skipped {
      PendingKeeps(h, rd.pos, k, st, st', rd.clocks, rd.clocks);
    }
  }

  lemma KeyOkBack(h: seq<Record>, rd: Reader, p: nat, k: FullKey, st: Store)
    requires KeyOk(h, rd, k, st) && p <= rd.pos
    ensures KeyOk(h, rd.(pos := p), k, st)
  {
    hide HeldAs, Held;
  }

  // ---------- every step keeps the invariant ----------

  function WithHandled(s: System, j: nat, r: Record, f: nat): System
    requires j < |s.servers|
  {
    s.(servers := s.servers[j := Handle(s.servers[j], r, f)])
  }

  lemma HandleServer(s: System, j: nat, r: Record, f: nat)
    requires j < |s.servers| && ServerOk(s, j) && RecordOk(s.owner, j, r) && FlushRange(s.servers[j], r, f)
    ensures ServerOk(WithHandled(s, j, r, f), j)
  {
    hide Replay;
    var v := s.servers[j];
    if Logged(v.store, r) {
      var h := v.hist + [r];
      assert h[..|v.hist|] == v.hist;
      ReplayPrefix(h, |v.hist|);
      assert h[..|h|] == h;
    }
  }

  lemma HandleReaderFrom(s: System, j: nat, r: Record, f: nat, b: nat)
    requires ReaderOk(s, j, b) && ServerOk(s, j) && FlushRange(s.servers[j], r, f)
    ensures ReaderOk(WithHandled(s, j, r, f), j, b)
  {
    hide KeyOk, Apply, Replay;
    var v := s.servers[j];
    if Logged(v.store, r) {
      forall k | s.owner(k) == j
        ensures KeyOk(v.hist + [r], v.readers[b], k, s.servers[b].store)
      {
        KeyOkGrow(v.hist, r, v.readers[b], k, s.servers[b].store);
      }
    }
  }

  lemma HandleReaderTo(s: System, j: nat, r: Record, f: nat, a: nat)
    requires ReaderOk(s, a, j) && a != j && s.owner(KeyOf(r)) != a
    ensures ReaderOk(WithHandled(s, j, r, f), a, j)
  {
    hide KeyOk;
    var t := WithHandled(s, j, r, f);
    forall k | s.owner(k) == a
      ensures KeyOk(t.servers[a].hist, t.servers[a].readers[j], k, t.servers[j].store)
    {
      KeyOkFrame(s.servers[a].hist, s.servers[a].readers[j], k, s.servers[j].store, t.servers[j].store);
    }
  }

  lemma HandleProvenance(s: System, j: nat, r: Record, f: nat)
    requires j < |s.servers| && Provenance(s) && (IsSource(r) || Copied(s, r))
    ensures Provenance(WithHandled(s, j, r, f))
  {
    hide Replay, Apply;
    var t := WithHandled(s, j, r, f);
    forall l, n | 0 <= l < |t.servers| && 0 <= n < |t.servers[l].hist| && !IsSource(t.servers[l].hist[n])
      ensures Copied(t, t.servers[l].hist[n])
    {
      var c := t.servers[l].hist[n];
      assert Copied(s, c);
      var i, m :| 0 <= i < |s.servers| && 0 <= m < |s.servers[i].hist|
        && IsSource(s.servers[i].hist[m]) && CopyOf(c, s.servers[i].hist[m]);
      assert t.servers[i].hist[m] == s.servers[i].hist[m];
    }
  }

  /** The invariant, except for what it says about the reader from x to y. */
  ghost predicate InvBut(s: System, x: nat, y: nat) {
    && (forall i :: 0 <= i < |s.servers| ==> ServerOk(s, i))
    && (forall i, j :: 0 <= i < |s.servers| && 0 <= j < |s.servers| && i != j && !(i == x && j == y) ==>
          ReaderOk(s, i, j))
    && Provenance(s)
  }

  /** Server j handles a command for a key of server x, which may be j itself. */
  lemma HandleKeeps(s: System, j: nat, r: Record, f: nat, x: nat)
    requires j < |s.servers| && InvBut(s, x, j) && RecordOk(s.owner, j, r) && FlushRange(s.servers[j], r, f)
    requires s.owner(KeyOf(r)) == x && (IsSource(r) || Copied(s, r))
    ensures InvBut(WithHandled(s, j, r, f), x, j)
  {
    hide Replay, Apply, Handle, Copied, KeyOk;
    var t := WithHandled(s, j, r, f);
    HandleProvenance(s, j, r, f);
    forall i | 0 <= i < |s.servers|
      ensures ServerOk(t, i)
    {
      if i == j {
        HandleServer(s, j, r, f);
      } else {
        assert ServerOk(s, i);
      }
    }
    forall a, b | 0 <= a < |s.servers| && 0 <= b < |s.servers| && a != b && !(a == x && b == j)
      ensures ReaderOk(t, a, b)
    {
      assert ReaderOk(s, a, b);
      if a == j {
        HandleReaderFrom(s, j, r, f, b);
      } else if b == j {
        HandleReaderTo(s, j, r, f, a);
      }
    }
  }

  lemma Restore(s: System, x: nat, y: nat)
    requires InvBut(s, x, y) && (x < |s.servers| && y < |s.servers| && x != y ==> ReaderOk(s, x, y))
    ensures Inv(s)
  {
  }

  /** Steps that log nothing keep the provenance of what is logged. */
  lemma ProvenanceFrame(s: System, t: System)
    requires Provenance(s) && |t.servers| == |s.servers|
    requires forall i :: 0 <= i < |s.servers| ==> t.servers[i].hist == s.servers[i].hist
    ensures Provenance(t)
  {
  }

  lemma SetReaderKeeps(s: System, i: nat, j: nat, rd: Reader)
    requires Inv(s) && Peers(s, i, j)
    ensures InvBut(SetReader(s, i, j, rd), i, j)
  {
    hide Replay, Provenance, KeyOk;
    var t := SetReader(s, i, j, rd);
    ProvenanceFrame(s, t);
    forall a | 0 <= a < |s.servers|
      ensures ServerOk(t, a)
    {
      assert ServerOk(s, a);
    }
    forall a, b | 0 <= a < |s.servers| && 0 <= b < |s.servers| && a != b && !(a == i && b == j)
      ensures ReaderOk(t, a, b)
    {
      assert ReaderOk(s, a, b);
    }
  }

  function WithoutKey(s: System, j: nat, k: FullKey): System
    requires j < |s.servers|
  {
    s.(servers := s.servers[j := s.servers[j].(store := s.servers[j].store - {k})])
  }

  /** A refused replica write may have unlinked the key; it belongs to the sender. */
  lemma RefuseKeeps(s: System, j: nat, k: FullKey, x: nat)
    requires j < |s.servers| && x != j && s.owner(k) == x && InvBut(s, x, j)
    ensures InvBut(WithoutKey(s, j, k), x, j)
  {
    hide Replay, Provenance, KeyOk;
    var t := WithoutKey(s, j, k);
    ProvenanceFrame(s, t);
    forall a | 0 <= a < |s.servers|
      ensures ServerOk(t, a)
    {
      assert ServerOk(s, a);
    }
    forall a, b | 0 <= a < |s.servers| && 0 <= b < |s.servers| && a != b && !(a == x && b == j)
      ensures ReaderOk(t, a, b)
    {
      assert ReaderOk(s, a, b);
      if b == j {
        forall k' | s.owner(k') == a
          ensures KeyOk(t.servers[a].hist, t.servers[a].readers[b], k', t.servers[b].store)
        {
          KeyOkFrame(s.servers[a].hist, s.servers[a].readers[b], k', s.servers[b].store, t.servers[b].store);
        }
      }
    }
  }

  /** A failed client set at the owner: its own peers are unaffected, the key becomes lost. */
  lemma DropKeeps(s: System, i: nat, k: FullKey)
    requires i < |s.servers| && s.owner(k) == i && Inv(s)
    ensures Inv(s.(servers := s.servers[i := Drop(s.servers[i], k)]))
  {
    hide Replay, Provenance, KeyOk;
    var t := s.(servers := s.servers[i := Drop(s.servers[i], k)]);
    ProvenanceFrame(s, t);
    forall a | 0 <= a < |s.servers|
      ensures ServerOk(t, a)
    {
      assert ServerOk(s, a);
    }
    forall a, b | 0 <= a < |s.servers| && 0 <= b < |s.servers| && a != b
      ensures ReaderOk(t, a, b)
    {
      assert ReaderOk(s, a, b);
      if b == i {
        forall k' | s.owner(k') == a
          ensures KeyOk(t.servers[a].hist, t.servers[a].readers[b], k', t.servers[b].store)
        {
          KeyOkFrame(s.servers[a].hist, s.servers[a].readers[b], k', s.servers[b].store, t.servers[b].store);
        }
      }
    }
  }

  /** What the transmitted command leaves at the peer is something the log once said. */
  lemma ShippedHeld(h: seq<Record>, p: nat, k: FullKey, v: Server, a: Action, clocks: set<int>, more: set<int>)
    requires a.Ship? && p < |h| && Proper(h[p]) && Held(h, k, v.store, clocks)
    requires clocks <= more && (!a.outcome.Refused? ==> a.clock in more)
    ensures Held(h, k, Receive(v, Received(Replica(h[p]), a.clock), a.outcome, a.flushed).store, more)
  {
    hide HeldAs, Received, SameAt, Replica;
    var r := Received(Replica(h[p]), a.clock);
    var st' := Receive(v, r, a.outcome, a.flushed).store;
    SameKey(h[p], a.clock);
    HandleApplies(v, r, a.flushed);
    if KeyOf(h[p]) != k {
      ReceiveOther(v, r, a.outcome, a.flushed, k);
      HeldKeeps(v.store, st', h, k, clocks, more);
    } else if !a.outcome.Refused? {
      HeldNow(h, p, v.store, a.clock, more);
    } else if k in st' {
      assert SameAt(st', v.store, k) by { SameStore(st', v.store, k); }
      HeldKeeps(v.store, st', h, k, clocks, more);
    } else {
      AbsentHeld(h, k, st', more);
    }
  }

  lemma SameStore(st: Store, other: Store, k: FullKey)
    requires st == other
    ensures SameAt(st, other, k)
  {
  }

  /** What the transmitted command, in whatever way it ends, does to the pair itself. */
  lemma ShippedPair(h: seq<Record>, rd: Reader, k: FullKey, v: Server, a: Action)
    requires a.Ship? && rd.pos < |h| && IsSource(h[rd.pos]) && Proper(h[rd.pos]) && KeyOk(h, rd, k, v.store)
    ensures var r := Received(Replica(h[rd.pos]), a.clock);
            KeyOk(h, Advance(rd, h[rd.pos], true, a.outcome, a.marks, a.now, a.clock), k,
                  Receive(v, r, a.outcome, a.flushed).store)
  {
    hide Pending, Received, SameAt, Held, SkippedOk, Replica;
    var r := Received(Replica(h[rd.pos]), a.clock);
    var rd' := Advance(rd, h[rd.pos], true, a.outcome, a.marks, a.now, a.clock);
    var st' := Receive(v, r, a.outcome, a.flushed).store;
    ShippedHeld(h, rd.pos, k, v, a, rd.clocks, rd'.clocks);
    assert KeyOf(r) == KeyOf(h[rd.pos]) by { SameKey(h[rd.pos], a.clock); }
    HandleApplies(v, r, a.flushed);
    if KeyOf(h[rd.pos]) == k {
      if a.outcome == Done {
        PendingShip(h, rd.pos, k, v.store, a.clock, rd.clocks, rd'.clocks);
      } else {
        StillToShip(h, rd.pos, k, st', rd'.clocks);
        assert k in rd.skipped ==> SkippedOk(h, rd'.pos, k, rd.skipped[k]);
      }
    } else if k in rd.skipped {
      OtherSkipped(h, rd.pos, k, rd.skipped[k]);
    } else if a.outcome == Done {
      PendingShip(h, rd.pos, k, v.store, a.clock, rd.clocks, rd'.clocks);
    } else {
      assert SameAt(st', v.store, k) by { ReceiveOther(v, r, a.outcome, a.flushed, k); }
      PendingKeeps(h, rd.pos, k, v.store, st', rd.clocks, rd'.clocks);
    }
  }

  lemma PendingKeeps(h: seq<Record>, p: nat, k: FullKey, st: Store, st': Store, clocks: set<int>, more: set<int>)
    requires Pending(h, p, k, st, clocks) && SameAt(st', st, k) && clocks <= more
    ensures Pending(h, p, k, st', more)
  {
    hide HeldAs, SameAt;
    if q :| p <= q <= |h| && HeldAs(st, h[..q], k, clocks) {
      HeldMore(st, st', h[..q], k, clocks, more);
    }
  }

  lemma SameKey(r: Record, clock: int)
    ensures KeyOf(Received(Replica(r), clock)) == KeyOf(r)
  {
  }

  lemma ReceiveOther(v: Server, r: Record, outcome: Delivery, f: nat, k: FullKey)
    requires KeyOf(r) != k
    ensures SameAt(Receive(v, r, outcome, f).store, v.store, k)
  {
  }

  lemma StillToShip(h: seq<Record>, p: nat, k: FullKey, st: Store, clocks: set<int>)
    requires p < |h| && IsSource(h[p]) && KeyOf(h[p]) == k
    ensures Pending(h, p, k, st, clocks)
  {
  }

  lemma OtherSkipped(h: seq<Record>, p: nat, k: FullKey, time: int)
    requires p < |h| && KeyOf(h[p]) != k && SkippedOk(h, p, k, time)
    ensures SkippedOk(h, p + 1, k, time)
  {
  }

  /** What passing a record without sending it does to the pair. */
  lemma PassedPair(h: seq<Record>, rd: Reader, k: FullKey, st: Store, a: Action)
    requires a.Ship? && rd.pos < |h| && KeyOk(h, rd, k, st)
    requires if IsSource(h[rd.pos]) then ExpiredAt(h[rd.pos], a.now) else KeyOf(h[rd.pos]) != k
    ensures KeyOk(h, Advance(rd, h[rd.pos], false, a.outcome, a.marks, a.now, a.clock), k, st)
  {
    hide Pending, ExpiredAt, Held, SkippedOk;
    if KeyOf(h[rd.pos]) == k {
      LastSkipped(h, rd.pos, a.now);
    } else if k in rd.skipped {
      OtherSkipped(h, rd.pos, k, rd.skipped[k]);
    } else {
      PendingSkip(h, rd.pos, k, st, rd.clocks);
    }
  }

  lemma LastSkipped(h: seq<Record>, p: nat, now: int)
    requires p < |h| && ExpiredAt(h[p], now)
    ensures SkippedOk(h, p + 1, KeyOf(h[p]), now)
  {
  }

  lemma ShipKeeps(s: System, a: Action)
    requires a.Ship? && Inv(s) && Enabled(s, a)
    ensures Inv(Do(s, a))
  {
    hide Replay, KeyOk, Provenance, Handle, ExpiredAt, Transmit, Received, Skipped;
    var i, j, outcome := a.from, a.to, a.outcome;
    var rd := s.servers[i].readers[j];
    var h := s.servers[i].hist;
    var r := h[rd.pos];
    assert RecordOk(s.owner, i, r) && ReaderOk(s, i, j) by { assert ServerOk(s, i); }
    TransmitIs(r, a.now);
    var sent := IsSource(r) && !ExpiredAt(r, a.now);
    var rd' := Advance(rd, r, sent, outcome, a.marks, a.now, a.clock);
    var u := SetReader(s, i, j, rd');
    SetReaderKeeps(s, i, j, rd');
    var c := Received(Replica(r), a.clock);
    assert KeyOf(c) == KeyOf(r) && IsSet(c) == IsSet(r) && CopyOf(c, r) && (sent ==> RecordOk(s.owner, j, c)) by {
      CopyIsOk(s.owner, i, j, r, a.clock);
    }
    if sent {
      assert u.servers[j] == s.servers[j];
      if outcome.Refused? {
        if outcome.drops && IsSet(r) {
          RefuseKeeps(u, j, KeyOf(r), i);
        }
      } else {
        assert u.servers[i].hist[rd.pos] == r;
        assert Copied(u, c);
        HandleKeeps(u, j, c, a.flushed, i);
      }
    }
    var t := Do(s, a);
    if sent && outcome.Refused? && !(outcome.drops && IsSet(r)) {
      assert t.servers == u.servers;
    }
    assert InvBut(t, i, j);
    forall k | s.owner(k) == i
      ensures KeyOk(h, rd', k, t.servers[j].store)
    {
      if sent {
        ShippedPair(h, rd, k, s.servers[j], a);
      } else {
        PassedPair(h, rd, k, s.servers[j].store, a);
      }
    }
    Restore(t, i, j);
  }

  /** The copy of a record is in order at every other server. */
  lemma CopyIsOk(owner: FullKey -> nat, i: nat, j: nat, r: Record, clock: int)
    requires RecordOk(owner, i, r)
    ensures var c := Received(Replica(r), clock);
            && KeyOf(c) == KeyOf(r) && IsSet(c) == IsSet(r) && CopyOf(c, r)
            && (IsSource(r) && i != j ==> RecordOk(owner, j, c))
  {
    ReceivedCopy(r, clock);
  }

  lemma MoveReaderKeeps(s: System, i: nat, j: nat, rd: Reader)
    requires Inv(s) && Peers(s, i, j)
    requires var was := s.servers[i].readers[j];
             rd.mark <= rd.pos <= was.pos && rd.skipped == was.skipped && rd.clocks == was.clocks
    ensures Inv(SetReader(s, i, j, rd))
  {
    hide Replay, KeyOk, Provenance;
    var t := SetReader(s, i, j, rd);
    SetReaderKeeps(s, i, j, rd);
    assert ReaderOk(s, i, j);
    var was := s.servers[i].readers[j];
    forall k | s.owner(k) == i
      ensures KeyOk(s.servers[i].hist, rd, k, s.servers[j].store)
    {
      KeyOkBack(s.servers[i].hist, was, rd.pos, k, s.servers[j].store);
      assert KeyOk(s.servers[i].hist, was.(pos := rd.pos), k, s.servers[j].store);
      KeyOkMark(s.servers[i].hist, was.(pos := rd.pos), rd.mark, k, s.servers[j].store);
    }
    Restore(t, i, j);
  }

  lemma KeyOkMark(h: seq<Record>, rd: Reader, mark: nat, k: FullKey, st: Store)
    requires KeyOk(h, rd, k, st)
    ensures KeyOk(h, rd.(mark := mark), k, st)
  {
  }

  lemma FlushKeeps(s: System, i: nat)
    requires Inv(s) && i < |s.servers|
    ensures Inv(Do(s, Flush(i)))
  {
    hide Replay, Provenance, KeyOk;
    var t := Do(s, Flush(i));
    ProvenanceFrame(s, t);
    forall a | 0 <= a < |s.servers|
      ensures ServerOk(t, a)
    {
      assert ServerOk(s, a);
    }
    forall a, b | 0 <= a < |s.servers| && 0 <= b < |s.servers| && a != b
      ensures ReaderOk(t, a, b)
    {
      assert ReaderOk(s, a, b) && ServerOk(s, a);
    }
  }

  lemma MarkBehind(s: System, i: nat, j: nat)
    requires Inv(s) && Peers(s, i, j)
    ensures s.servers[i].readers[j].mark <= s.servers[i].readers[j].pos <= |s.servers[i].hist|
  {
    assert ReaderOk(s, i, j) && ServerOk(s, i);
  }

  lemma StepKeeps(s: System, a: Action)
    requires Inv(s) && Enabled(s, a)
    ensures Inv(Do(s, a)) && Do(s, a).owner == s.owner && |Do(s, a).servers| == |s.servers|
  {
    hide ServerOk, ReaderOk, Provenance, Handle, Receive, Advance;
    match a
    case ClientWrite(i, r, f) =>
      assert InvBut(s, i, i);
      HandleKeeps(s, i, r, f, i);
      Restore(Do(s, a), i, i);
    case ClientWriteFails(i, k, drops) => DropKeeps(s, i, k);
    case Flush(i) => FlushKeeps(s, i);
    case Ship(_, _, _, _, _, _, _) => ShipKeeps(s, a);
    case WriteMark(i, j) =>
      var rd := s.servers[i].readers[j];
      MoveReaderKeeps(s, i, j, rd.(mark := rd.pos));
    case Reconnect(i, j) =>
      MarkBehind(s, i, j);
      var rd := s.servers[i].readers[j];
      MoveReaderKeeps(s, i, j, rd.(pos := rd.mark));
  }

  // ---------- whole runs ----------

  predicate Initial(s: System) {
    forall i :: 0 <= i < |s.servers| ==>
      && s.servers[i].store == map[] && s.servers[i].hist == [] && s.servers[i].flushed == 0
      && s.servers[i].readers == seq(|s.servers|, _ => Reader(0, 0, map[], {})) && s.servers[i].lost == {}
  }

  predicate Legal(s: System, actions: seq<Action>)
    decreases |actions|
  {
    actions == [] || (Enabled(s, actions[0]) && Legal(Do(s, actions[0]), actions[1..]))
  }

  function After(s: System, actions: seq<Action>): (t: System)
    requires Legal(s, actions)
    decreases |actions|
  {
    if actions == [] then s else After(Do(s, actions[0]), actions[1..])
  }

  lemma InitialInv(s: System)
    requires Initial(s)
    ensures Inv(s)
  {
    forall i, j | 0 <= i < |s.servers| && 0 <= j < |s.servers| && i != j
      ensures ReaderOk(s, i, j)
    {
      forall k | s.owner(k) == i
        ensures KeyOk(s.servers[i].hist, s.servers[i].readers[j], k, s.servers[j].store)
      {
        assert HeldAs(s.servers[j].store, s.servers[i].hist[..0], k, {});
      }
    }
  }

  lemma {:induction false} RunKeeps(s: System, actions: seq<Action>)
    requires Inv(s) && Legal(s, actions)
    ensures Inv(After(s, actions)) && After(s, actions).owner == s.owner
    ensures |After(s, actions).servers| == |s.servers|
    decreases |actions|
  {
    hide Inv, Do, Enabled;
    if actions != [] {
      StepKeeps(s, actions[0]);
      RunKeeps(Do(s, actions[0]), actions[1..]);
    }
  }

  ghost predicate CaughtUp(s: System, i: nat, j: nat) {
    Peers(s, i, j) && s.servers[i].readers[j].pos == |s.servers[i].hist|
  }

  /** What a log says of a key is its last record. */
  lemma {:induction false} ReplayLast(h: seq<Record>, k: FullKey) returns (t: nat)
    requires k in Replay(h)
    ensures LastWrite(h, t, k) && IsSet(h[t]) && Replay(h)[k] == StoredValue(h[t])
    decreases |h|
  {
    var n := |h| - 1;
    if KeyOf(h[n]) == k {
      t := n;
    } else {
      t := ReplayLast(h[..n], k);
    }
  }

  lemma ExpiredHides(st: Store, k: FullKey, r: Record, time: int, now: int)
    requires k in st && st[k] == StoredValue(r) && Proper(r) && ExpiredAt(r, time) && time <= now
    ensures !VisibleAt(st, k, now)
  {
    GetPutInt(r.expires, r.value);
  }

  /** A key with a record has a last one. */
  lemma {:induction false} LastExists(h: seq<Record>, k: FullKey, m: nat) returns (t: nat)
    requires m < |h| && KeyOf(h[m]) == k
    ensures LastWrite(h, t, k)
    decreases |h|
  {
    hide KeyOf;
    var n := |h| - 1;
    if KeyOf(h[n]) == k {
      t := n;
    } else {
      t := LastExists(h[..n], k, m);
    }
  }

  /** Owner and peer hold the key's last value, the peer's with an expiry by one of its clocks, or neither has it. */
  ghost predicate Agree(h: seq<Record>, clocks: set<int>, owner: Store, peer: Store, k: FullKey) {
    if k in owner then k in peer && LastPair(owner[k], peer[k], h, k, clocks) else k !in peer
  }

  ghost predicate LastPair(x: seq<Byte>, y: seq<Byte>, h: seq<Record>, k: FullKey, clocks: set<int>) {
    exists t: nat, c ::
      LastWrite(h, t, k) && c in clocks && x == StoredValue(h[t]) && y == StoredValue(Received(h[t], c))
  }

  /** The key's last record is a set that has expired by that time. */
  ghost predicate LastExpired(h: seq<Record>, k: FullKey, time: int) {
    exists t: nat :: LastWrite(h, t, k) && IsSet(h[t]) && ExpiredAt(h[t], time)
  }

  /**
    How a key stands at the owner and at the peer: they agree unless a failed set has unlinked it at
    the owner. Only a key whose last record was skipped as expired may differ otherwise: the owner
    does not show that one, and the peer holds what the log once said of it.
   */
  ghost predicate Settled(h: seq<Record>, skipped: map<FullKey, int>, clocks: set<int>, lost: set<FullKey>,
                          owner: Store, peer: Store, k: FullKey) {
    if k in skipped then
      && LastExpired(h, k, skipped[k])
      && (forall now :: now >= skipped[k] ==> !VisibleAt(owner, k, now))
      && Held(h, k, peer, clocks)
    else Agree(h, clocks, owner, peer, k) <==> k !in lost
  }

  ghost predicate SettledAt(s: System, i: nat, j: nat, k: FullKey)
    requires Peers(s, i, j)
  {
    var v, rd := s.servers[i], s.servers[i].readers[j];
    Settled(v.hist, rd.skipped, rd.clocks, v.lost, v.store, s.servers[j].store, k)
  }

  /** A skipped key of a reader that has passed the whole log. */
  lemma SkippedKey(h: seq<Record>, k: FullKey, time: int) returns (t: nat)
    requires SkippedOk(h, |h|, k, time) && forall n :: 0 <= n < |h| ==> Proper(h[n])
    ensures t < |h| && LastWrite(h, t, k) && IsSet(h[t]) && ExpiredAt(h[t], time)
  {
    hide ExpiredAt, KeyOf, Proper;
    var m :| 0 <= m < |h| && KeyOf(h[m]) == k;
    t := LastExists(h, k, m);
    assert ExpiredAt(h[t], time);
    ExpiredIsSet(h[t], time);
  }

  /** The owner does not show it. */
  lemma SkippedHidden(h: seq<Record>, t: nat, st: Store, k: FullKey, time: int, now: int)
    requires LastWrite(h, t, k) && Proper(h[t]) && ExpiredAt(h[t], time) && time <= now
    requires k in st ==> SameAt(st, Replay(h), k)
    ensures !VisibleAt(st, k, now)
  {
    hide Replay, VisibleAt, ExpiredAt, StoredValue;
    if k in st {
      var t' := ReplayLast(h, k);
      assert t' == t;
      ExpiredHides(st, k, h[t], time, now);
    } else {
      Absent(st, k, now);
    }
  }

  lemma SkippedSettled(s: System, i: nat, j: nat, k: FullKey)
    requires Inv(s) && CaughtUp(s, i, j) && s.owner(k) == i && k in s.servers[i].readers[j].skipped
    ensures SettledAt(s, i, j, k)
  {
    hide Replay, VisibleAt, ExpiredAt, Held, SkippedOk, LastWrite, Provenance, Proper, KeyOf;
    var h, rd := s.servers[i].hist, s.servers[i].readers[j];
    assert ReaderOk(s, i, j) && ServerOk(s, i);
    assert KeyOk(h, rd, k, s.servers[j].store);
    assert forall n :: 0 <= n < |h| ==> RecordOk(s.owner, i, h[n]);
    var t := SkippedKey(h, k, rd.skipped[k]);
    forall now | now >= rd.skipped[k] ensures !VisibleAt(s.servers[i].store, k, now) {
      SkippedHidden(h, t, s.servers[i].store, k, rd.skipped[k], now);
    }
  }

  lemma ExpiredIsSet(r: Record, time: int)
    requires Proper(r) && ExpiredAt(r, time)
    ensures IsSet(r)
  {
  }

  /** At a reader that has passed the whole log, the peer holds what the log says. */
  lemma PassedKey(s: System, i: nat, j: nat, k: FullKey)
    requires Inv(s) && CaughtUp(s, i, j) && s.owner(k) == i && k !in s.servers[i].readers[j].skipped
    ensures HeldAs(s.servers[j].store, s.servers[i].hist, k, s.servers[i].readers[j].clocks)
  {
    hide HeldAs, Held;
    var h, rd := s.servers[i].hist, s.servers[i].readers[j];
    assert ReaderOk(s, i, j) && ServerOk(s, i);
    assert KeyOk(h, rd, k, s.servers[j].store);
    assert h[..|h|] == h;
  }

  lemma AgreeExactly(h: seq<Record>, clocks: set<int>, owner: Store, peer: Store, k: FullKey)
    requires HeldAs(peer, h, k, clocks)
    ensures SameAt(owner, Replay(h), k) ==> Agree(h, clocks, owner, peer, k)
    ensures k !in owner && k in Replay(h) ==> !Agree(h, clocks, owner, peer, k)
  {
    hide Replay, StoredValue, Received;
    if k in Replay(h) {
      var t := ReplayLast(h, k);
      var t': nat, c :| LastWrite(h, t', k) && c in clocks && peer[k] == StoredValue(Received(h[t'], c));
      assert t == t';
    }
  }

  lemma CaughtUpKey(s: System, i: nat, j: nat, k: FullKey)
    requires Inv(s) && CaughtUp(s, i, j) && s.owner(k) == i
    ensures SettledAt(s, i, j, k)
  {
    hide Replay, HeldAs, Agree, Held;
    var v, rd := s.servers[i], s.servers[i].readers[j];
    if k in rd.skipped {
      SkippedSettled(s, i, j, k);
    } else {
      assert ServerOk(s, i);
      PassedKey(s, i, j, k);
      AgreeExactly(v.hist, rd.clocks, v.store, s.servers[j].store, k);
    }
  }

  lemma Absent(st: Store, k: FullKey, now: int)
    requires k !in st
    ensures !VisibleAt(st, k, now)
  {
  }

  /**
    Convergence. In every run of client writes (successful or failed), flushes, shipping with any
    outcome and any clocks, mark writes and reconnects, a peer whose reader has caught up agrees with
    the owner on every key the owner is written through - except exactly the keys a failed set has
    unlinked at the owner, because that loss is never logged, and possibly keys whose last value had
    expired when the reader came to it, which the owner no longer shows and of which the peer holds
    what the log once said.
   */
  lemma Convergence(s: System, actions: seq<Action>, i: nat, j: nat)
    requires Initial(s) && Legal(s, actions) && CaughtUp(After(s, actions), i, j)
    ensures forall k :: s.owner(k) == i ==> SettledAt(After(s, actions), i, j, k)
  {
    hide Inv, SettledAt;
    InitialInv(s);
    RunKeeps(s, actions);
    var t := After(s, actions);
    forall k | s.owner(k) == i
      ensures SettledAt(t, i, j, k)
    {
      CaughtUpKey(t, i, j, k);
    }
  }

  // ---------- runs without expiry ----------

  predicate NeverExpiring(actions: seq<Action>) {
    forall n :: 0 <= n < |actions| && actions[n].ClientWrite? ==> actions[n].record.expires == 0
  }

  /** Nothing logged expires and nothing has been skipped. */
  predicate LastingServer(v: Server) {
    && (forall n :: 0 <= n < |v.hist| ==> v.hist[n].expires == 0)
    && (forall j :: 0 <= j < |v.readers| ==> v.readers[j].skipped == map[])
  }

  predicate Lasting(s: System) { forall i :: 0 <= i < |s.servers| ==> LastingServer(s.servers[i]) }

  lemma LastingReceive(v: Server, r: Record, outcome: Delivery, f: nat)
    requires LastingServer(v) && r.expires == 0
    ensures LastingServer(Receive(v, r, outcome, f)) && LastingServer(Handle(v, r, f))
  {
    hide Apply;
  }

  lemma LastingAdvance(v: Server, rd: Reader, j: nat, r: Record, a: Action)
    requires a.Ship? && LastingServer(v) && j < |v.readers| && rd == v.readers[j] && ValidOp(r.op) && Proper(r)
    requires r.expires == 0
    ensures var sent := Transmit(AsRead(r), true, true, 0, a.now);
            var rd' := Advance(rd, r, sent.Some?, a.outcome, a.marks, a.now, a.clock);
            && LastingServer(v.(readers := v.readers[j := rd']))
            && (sent.Some? ==> Received(sent.value, a.clock).expires == 0)
  {
    TransmitIs(r, a.now);
  }

  lemma LastingStep(s: System, a: Action)
    requires Inv(s) && Lasting(s) && Enabled(s, a) && NeverExpiring([a])
    ensures Lasting(Do(s, a))
  {
    hide Receive, Handle, Advance, Transmit, Received, LastingServer, ReaderOk, Provenance, Replay;
    assert a == [a][0];
    match a
    case ClientWrite(i, r, f) => LastingReceive(s.servers[i], r, Done, f);
    case ClientWriteFails(i, k, drops) => LastingSame(s.servers[i], Drop(s.servers[i], k));
    case Flush(i) => LastingSame(s.servers[i], s.servers[i].(flushed := |s.servers[i].hist|));
    case Ship(i, j, outcome, marks, now, clock, f) =>
      assert ServerOk(s, i) && LastingServer(s.servers[i]);
      var rd := s.servers[i].readers[j];
      var r := s.servers[i].hist[rd.pos];
      assert RecordOk(s.owner, i, r);
      LastingRecord(s.servers[i], rd.pos);
      LastingAdvance(s.servers[i], rd, j, r, a);
      var sent := Transmit(AsRead(r), true, true, 0, now);
      if sent.Some? {
        LastingReceive(s.servers[j], Received(sent.value, clock), outcome, f);
      }
    case WriteMark(i, j) =>
      var rd := s.servers[i].readers[j];
      LastingMove(s.servers[i], j, rd.(mark := rd.pos));
    case Reconnect(i, j) =>
      var rd := s.servers[i].readers[j];
      LastingMove(s.servers[i], j, rd.(pos := rd.mark));
  }

  lemma LastingSame(v: Server, w: Server)
    requires LastingServer(v) && w.hist == v.hist && w.readers == v.readers
    ensures LastingServer(w)
  {
  }

  lemma LastingRecord(v: Server, n: nat)
    requires LastingServer(v) && n < |v.hist|
    ensures v.hist[n].expires == 0
  {
  }

  lemma LastingMove(v: Server, j: nat, rd: Reader)
    requires LastingServer(v) && j < |v.readers| && rd.skipped == v.readers[j].skipped
    ensures LastingServer(v.(readers := v.readers[j := rd]))
  {
  }

  lemma {:induction false} LastingRun(s: System, actions: seq<Action>)
    requires Inv(s) && Lasting(s) && Legal(s, actions) && NeverExpiring(actions)
    ensures Lasting(After(s, actions))
    decreases |actions|
  {
    hide Inv, Do, Enabled, Lasting;
    if actions != [] {
      assert NeverExpiring([actions[0]]) && NeverExpiring(actions[1..]);
      StepKeeps(s, actions[0]);
      LastingStep(s, actions[0]);
      LastingRun(Do(s, actions[0]), actions[1..]);
    }
  }

  lemma LastingKey(s: System, i: nat, j: nat, k: FullKey)
    requires Inv(s) && Lasting(s) && CaughtUp(s, i, j) && s.owner(k) == i
    ensures SameAt(s.servers[j].store, s.servers[i].store, k) <==> k !in s.servers[i].lost
  {
    hide Replay, StoredValue;
    var v, rd := s.servers[i], s.servers[i].readers[j];
    assert ServerOk(s, i) && LastingServer(v);
    PassedKey(s, i, j, k);
    if k in Replay(v.hist) {
      var t := ReplayLast(v.hist, k);
      var t': nat, c :| LastWrite(v.hist, t', k) && c in rd.clocks
                && s.servers[j].store[k] == StoredValue(Received(v.hist[t'], c));
      assert t == t' && Received(v.hist[t], c) == v.hist[t];
    }
  }

  /**
    Where no client sets an expiry, no reader ever skips anything, and a peer whose reader has caught
    up holds exactly what the owner holds of a key if and only if no failed set has unlinked it there.
   */
  lemma LastingConvergence(s: System, actions: seq<Action>, i: nat, j: nat)
    requires Initial(s) && Legal(s, actions) && NeverExpiring(actions)
    ensures Lasting(After(s, actions))
    ensures CaughtUp(After(s, actions), i, j) ==>
              var t := After(s, actions);
              forall k :: s.owner(k) == i ==>
                (SameAt(t.servers[j].store, t.servers[i].store, k) <==> k !in t.servers[i].lost)
  {
    hide Inv, SameAt;
    InitialInv(s);
    RunKeeps(s, actions);
    assert Lasting(s);
    LastingRun(s, actions);
    var t := After(s, actions);
    if CaughtUp(t, i, j) {
      forall k | s.owner(k) == i
        ensures SameAt(t.servers[j].store, t.servers[i].store, k) <==> k !in t.servers[i].lost
      {
        LastingKey(t, i, j, k);
      }
    }
  }

  /**
    No echo. In every run each replica record is the copy of a source record in some log, belongs
    to a key written elsewhere, and is skipped by every reader whose old-data sync is finished.
   */
  lemma NoEcho(s: System, actions: seq<Action>, j: nat, n: nat)
    requires Initial(s) && Legal(s, actions)
    requires j < |After(s, actions).servers| && n < |After(s, actions).servers[j].hist|
    requires !IsSource(After(s, actions).servers[j].hist[n])
    ensures var t := After(s, actions);
            var r := t.servers[j].hist[n];
            && Copied(t, r)
            && t.owner(KeyOf(r)) != j
            && forall need, until, now :: Transmit(r, need, true, until, now) == None
  {
    InitialInv(s);
    RunKeeps(s, actions);
    assert ServerOk(After(s, actions), j);
  }

  lemma {:induction false} ShipAll(s: System, i: nat, j: nat) returns (actions: seq<Action>)
    requires Inv(s) && Peers(s, i, j) && s.servers[i].flushed == |s.servers[i].hist|
    ensures Legal(s, actions) && CaughtUp(After(s, actions), i, j)
    ensures After(s, actions).servers[i].hist == s.servers[i].hist
    decreases |s.servers[i].hist| - s.servers[i].readers[j].pos
  {
    hide Transmit, Received;
    MarkBehind(s, i, j);
    if s.servers[i].readers[j].pos == |s.servers[i].hist| {
      actions := [];
    } else {
      var a := Ship(i, j, Done, false, 0, 0, s.servers[j].flushed);
      assert Enabled(s, a) by { assert ServerOk(s, j); }
      StepKeeps(s, a);
      assert Do(s, a).servers[i].readers[j].pos == s.servers[i].readers[j].pos + 1;
      assert Do(s, a).servers[i].hist == s.servers[i].hist;
      var rest := ShipAll(Do(s, a), i, j);
      actions := [a] + rest;
      assert actions[1..] == rest;
    }
  }

  /** A reader of records can always catch up: flush the log, then ship record by record. */
  lemma CanCatchUp(s: System, i: nat, j: nat) returns (actions: seq<Action>)
    requires Inv(s) && Peers(s, i, j)
    ensures Legal(s, actions) && CaughtUp(After(s, actions), i, j)
    ensures After(s, actions).servers[i].hist == s.servers[i].hist
  {
    hide Inv;
    var a := Flush(i);
    StepKeeps(s, a);
    var rest := ShipAll(Do(s, a), i, j);
    actions := [a] + rest;
    assert actions[1..] == rest;
  }

  /** One record is all there is in the log, and the peer has it. */
  ghost predicate OneShipped(s: System, r: Record) {
    && |s.servers| == 2 && s.owner(KeyOf(r)) == 0
    && s.servers[0].hist == [r] && s.servers[0].flushed == 1
    && |s.servers[0].readers| == 2 && s.servers[0].readers[1].pos == 1
    && s.servers[1].flushed == 0
    && s.servers[1].store == map[KeyOf(r) := StoredValue(r)]
  }

  lemma ShipFirst(s: System, r: Record)
    requires Initial(s) && |s.servers| == 2 && s.owner(KeyOf(r)) == 0
    requires r.op == SOURCE_SET && Proper(r) && r.expires == 0
    ensures var actions := [ClientWrite(0, r, 1), Ship(0, 1, Done, false, 0, 0, 0)];
            Legal(s, actions) && OneShipped(After(s, actions), r)
  {
    hide KeyOf, StoredValue, Transmit;
    var a, b := ClientWrite(0, r, 1), Ship(0, 1, Done, false, 0, 0, 0);
    TransmitIs(r, 0);
    SameKey(r, 0);
    var s1 := Do(s, a);
    assert s1.servers[0].hist == [r];
    var s2 := Do(s1, b);
    assert StoredValue(Received(Replica(r), 0)) == StoredValue(r) by { NeverRebased(r); }
    assert [a, b][1..] == [b] && [b][1..] == [];
    assert Legal(s2, []) && Legal(s1, [b]) && After(s2, []) == s2 && After(s1, [b]) == s2;
  }

  lemma NeverRebased(r: Record)
    requires r.expires == 0
    ensures StoredValue(Received(Replica(r), 0)) == StoredValue(r)
  {
  }

  lemma SkipSecond(s: System, r: Record, later: Record, t: int)
    requires OneShipped(s, r) && r.expires == 0
    requires later.op == SOURCE_SET && Proper(later) && 0 < later.expires < t && KeyOf(later) == KeyOf(r)
    ensures var actions := [ClientWrite(0, later, 2), Ship(0, 1, Done, false, t, 0, 0)];
            && Legal(s, actions) && CaughtUp(After(s, actions), 0, 1)
            && VisibleAt(After(s, actions).servers[1].store, KeyOf(r), t)
            && !VisibleAt(After(s, actions).servers[0].store, KeyOf(r), t)
  {
    hide KeyOf, PutInt, GetInt, Transmit;
    var c, d := ClientWrite(0, later, 2), Ship(0, 1, Done, false, t, 0, 0);
    TransmitIs(later, t);
    GetPutInt(0, r.value);
    GetPutInt(later.expires, later.value);
    var s1 := Do(s, c);
    assert s1.servers[0].hist == [r, later];
    var s2 := Do(s1, d);
    assert [c, d][1..] == [d] && [d][1..] == [];
    assert Legal(s2, []) && Legal(s1, [d]) && After(s2, []) == s2 && After(s1, [d]) == s2;
  }

  lemma {:induction false} RunsCompose(s: System, xs: seq<Action>, ys: seq<Action>)
    requires Legal(s, xs) && Legal(After(s, xs), ys)
    ensures Legal(s, xs + ys) && After(s, xs + ys) == After(After(s, xs), ys)
    decreases |xs|
  {
    hide Enabled, Do;
    if xs == [] {
      assert xs + ys == ys;
    } else {
      RunsCompose(Do(s, xs[0]), xs[1..], ys);
      assert (xs + ys)[1..] == xs[1..] + ys;
    }
  }

  lemma OneStep(s: System, a: Action)
    requires Enabled(s, a)
    ensures Legal(s, [a]) && After(s, [a]) == Do(s, a)
  {
    hide Enabled, Do;
    assert [a][1..] == [];
    assert Legal(Do(s, a), []) && After(Do(s, a), []) == Do(s, a);
  }

  /** The failing family is real: one set, one shipment, one failed set that unlinks the key. */
  lemma FailedSetDiverges(s: System, r: Record) returns (actions: seq<Action>)
    requires Initial(s) && |s.servers| == 2
    requires r.op == SOURCE_SET && Proper(r) && r.expires == 0 && s.owner(KeyOf(r)) == 0
    ensures Legal(s, actions) && CaughtUp(After(s, actions), 0, 1)
    ensures KeyOf(r) in After(s, actions).servers[1].store
    ensures KeyOf(r) !in After(s, actions).servers[0].store
  {
    var xs := [ClientWrite(0, r, 1), Ship(0, 1, Done, false, 0, 0, 0)];
    var c := ClientWriteFails(0, KeyOf(r), true);
    ShipFirst(s, r);
    hide KeyOf, StoredValue, Initial, Legal, After;
    var t := After(s, xs);
    OneStep(t, c);
    RunsCompose(s, xs, [c]);
    actions := xs + [c];
  }

  /**
    Skipping what has expired leaves the value before it: a set without expiry, shipped, then a set
    with one that has passed when the reader comes to it. The peer goes on showing the old value.
   */
  lemma SkippedSetDiverges(s: System, r: Record, later: Record, t: int) returns (actions: seq<Action>)
    requires Initial(s) && |s.servers| == 2 && s.owner(KeyOf(r)) == 0
    requires r.op == SOURCE_SET && Proper(r) && r.expires == 0
    requires later.op == SOURCE_SET && Proper(later) && 0 < later.expires < t && KeyOf(later) == KeyOf(r)
    ensures Legal(s, actions) && CaughtUp(After(s, actions), 0, 1)
    ensures VisibleAt(After(s, actions).servers[1].store, KeyOf(r), t)
    ensures !VisibleAt(After(s, actions).servers[0].store, KeyOf(r), t)
  {
    hide Legal, After, VisibleAt, CaughtUp;
    var xs := [ClientWrite(0, r, 1), Ship(0, 1, Done, false, 0, 0, 0)];
    var ys := [ClientWrite(0, later, 2), Ship(0, 1, Done, false, t, 0, 0)];
    ShipFirst(s, r);
    SkipSecond(After(s, xs), r, later, t);
    RunsCompose(s, xs, ys);
    actions := xs + ys;
  }
}
