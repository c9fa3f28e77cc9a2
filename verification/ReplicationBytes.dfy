/**
  Replication down to the bytes: the logs are files plus a buffer, readers hold a file index and
  an offset, and records travel through their text form. Every run is a run of `Replication`.
 */
module ReplicationBytes {
  import opened Bytes
  import opened RecordCodec
  import opened Binlog
  import R = Replication

  datatype Reader = Reader(at: Position, mark: Position, skipped: map<R.FullKey, int>, clocks: set<int>)

  datatype Server = Server(store: R.Store, log: Log, readers: seq<Reader>, lost: set<R.FullKey>)

  datatype System = System(servers: seq<Server>, owner: R.FullKey -> nat)

  datatype Action =
    | ClientWrite(at: nat, record: Record)
    | ClientWriteFails(at: nat, key: R.FullKey, drops: bool)
    | FlushLog(at: nat)
    | Ship(from: nat, to: nat, outcome: R.Delivery, marks: bool, now: int, clock: int)
    | WriteMark(from: nat, to: nat)
    | Reconnect(from: nat, to: nat)

  predicate Peers(s: System, from: nat, to: nat) {
    from < |s.servers| && to < |s.servers| && from != to && to < |s.servers[from].readers|
  }

  /** What the request handlers let through: a set may have an empty key, unless its value is empty too. */
  predicate Accepted(r: Record) {
    && Written(r)
    && IsSource(r) && r.info.key != LIST_KEY
    && (if IsSet(r) then r.info.key != [] || r.value != []
        else r.info.key != [])
  }

  /** What the reader gives the sync loop to send, if anything. */
  function ToSend(s: System, i: nat, j: nat, now: int): Option<Record>
    requires Peers(s, i, j) && OnFile(s.servers[i].log.files, s.servers[i].readers[j].at)
  {
    var rd := s.servers[i].readers[j];
    var p := BinlogRead(s.servers[i].log.files, rd.at.index, rd.at.offset).parsed;
    if p.Complete? then R.Transmit(p.record, true, true, 0, now) else None
  }

  predicate Enabled(s: System, a: Action) {
    match a
    case ClientWrite(i, r) =>
      i < |s.servers| && s.servers[i].log.files != [] && Accepted(r) && s.owner(R.KeyOf(r)) == i
    case ClientWriteFails(i, k, _) => i < |s.servers| && s.owner(k) == i
    case FlushLog(i) => i < |s.servers| && s.servers[i].log.files != []
    case Ship(i, j, _, _, _, _) =>
      && Peers(s, i, j) && s.servers[j].log.files != []
      && OnFile(s.servers[i].log.files, s.servers[i].readers[j].at)
    case WriteMark(i, j) => Peers(s, i, j)
    case Reconnect(i, j) => Peers(s, i, j)
  }

  function Handle(s: Server, r: Record): Server
    requires s.log.files != []
  {
    if R.Logged(s.store, r) then
      s.(store := R.Apply(s.store, r), log := Write(s.log, r), lost := s.lost - {R.KeyOf(r)})
    else s
  }

  function Drop(s: Server, k: R.FullKey): Server {
    s.(store := s.store - {k}, lost := if k in s.store then s.lost + {k} else s.lost)
  }

  function Receive(s: Server, r: Record, outcome: R.Delivery): Server
    requires s.log.files != []
  {
    match outcome
    case Done => Handle(s, r)
    case AckLost => Handle(s, r)
    case Refused(drops) => if drops && IsSet(r) then s.(store := s.store - {R.KeyOf(r)}) else s
  }

  /** Position and mark after the read itself: moving on to the next file writes the mark. */
  function AfterRead(rd: Reader, rr: ReadResult): Reader {
    rd.(at := Position(rr.index, rr.offset),
        mark := if rr.index == rd.at.index then rd.mark else Position(rr.index, 0))
  }

  function Advance(rd: Reader, r: Record, length: nat, sent: bool,
                   outcome: R.Delivery, marks: bool, now: int, clock: int)
    : Reader
  {
    Reader(if sent && outcome != R.Done then rd.at else Position(rd.at.index, rd.at.offset + length),
           if marks then rd.at else rd.mark, R.Skipped(rd.skipped, r, sent, outcome, now),
           if sent && !outcome.Refused? then rd.clocks + {clock} else rd.clocks)
  }

  function SetReader(s: System, i: nat, j: nat, rd: Reader): System
    requires Peers(s, i, j)
  {
    s.(servers := s.servers[i := s.servers[i].(readers := s.servers[i].readers[j := rd])])
  }

  /** One turn of a peer's sync loop. A reader that meets an error stays where it is. */
  function ShipOne(s: System, i: nat, j: nat, outcome: R.Delivery, marks: bool, now: int, clock: int): System
    requires Enabled(s, Ship(i, j, outcome, marks, now, clock))
  {
    var rd := s.servers[i].readers[j];
    var rr := BinlogRead(s.servers[i].log.files, rd.at.index, rd.at.offset);
    var rd1 := AfterRead(rd, rr);
    if !rr.parsed.Complete? then SetReader(s, i, j, rd1)
    else
      var r := rr.parsed.record;
      var sent := R.Transmit(r, true, true, 0, now);
      var u := SetReader(s, i, j, Advance(rd1, r, rr.parsed.length, sent.Some?, outcome, marks, now, clock));
      if sent.None? then u
      else u.(servers := u.servers[j := Receive(u.servers[j], R.Received(sent.value, clock), outcome)])
  }

  function Do(s: System, a: Action): (t: System)
    requires Enabled(s, a)
  {
    match a
    case ClientWrite(i, r) => s.(servers := s.servers[i := Handle(s.servers[i], r)])
    case ClientWriteFails(i, k, drops) =>
      if drops then s.(servers := s.servers[i := Drop(s.servers[i], k)]) else s
    case FlushLog(i) => s.(servers := s.servers[i := s.servers[i].(log := Flush(s.servers[i].log))])
    case Ship(i, j, outcome, marks, now, clock) => ShipOne(s, i, j, outcome, marks, now, clock)
    case WriteMark(i, j) =>
      var rd := s.servers[i].readers[j];
      SetReader(s, i, j, rd.(mark := rd.at))
    case Reconnect(i, j) =>
      var rd := s.servers[i].readers[j];
      SetReader(s, i, j, rd.(at := rd.mark))
  }

  /** The records a step appends to the log of server l. */
  function Writes(s: System, a: Action, l: nat): (rs: seq<Record>)
    requires Enabled(s, a)
  {
    match a
    case ClientWrite(i, r) => if l == i && R.Logged(s.servers[i].store, r) then [r] else []
    case Ship(i, j, outcome, _, now, clock) =>
      var sent := ToSend(s, i, j, now);
      if l == j && sent.Some? && !outcome.Refused? && R.Logged(s.servers[j].store, sent.value)
      then [R.Received(sent.value, clock)] else []
    case _ => []
  }

  // ---------- reading a log ----------

  /** The first n records have been flushed and can all be read. */
  ghost predicate Passed(groups: seq<seq<Record>>, n: nat) {
    n <= |Flatten(groups)| && AllReadable(Flatten(groups)[..n])
  }

  /** A reader stands behind n records and its mark behind m, all of which can be read. */
  ghost predicate ReaderIn(groups: seq<seq<Record>>, rd: Reader, n: nat, m: nat) {
    Behind(groups, rd.at, n) && Behind(groups, rd.mark, m) && Passed(groups, n) && Passed(groups, m)
  }

  /** The first record that cannot be read, if there is one, stops a reader whatever follows it. */
  ghost predicate FirstDecided(h: seq<Record>) {
    forall n :: 0 <= n < |h| && AllReadable(h[..n]) && !Readable(h[n]) ==> Decided(h[n])
  }

  lemma PassedGrows(g: RecordLog, h: RecordLog, n: nat)
    requires Grows(g, h) && Passed(g.groups, n)
    ensures Passed(h.groups, n)
  {
    hide Behind, Flatten, Readable;
    assert Flatten(h.groups)[..n] == Flatten(g.groups)[..n];
  }

  lemma ReaderGrows(g: RecordLog, h: RecordLog, rd: Reader, n: nat, m: nat)
    requires Grows(g, h) && ReaderIn(g.groups, rd, n, m)
    ensures ReaderIn(h.groups, rd, n, m)
  {
    hide Passed, Behind;
    PassedGrows(g, h, n);
    PassedGrows(g, h, m);
  }

  lemma PassedOne(groups: seq<seq<Record>>, n: nat)
    requires Passed(groups, n) && n < |Flatten(groups)| && Readable(Flatten(groups)[n])
    ensures Passed(groups, n + 1)
  {
    hide Flatten, Readable;
  }

  /** What a turn of the sync loop reads, and where the reader then stands. */
  lemma ReadSame(g: RecordLog, at: Position, n: nat)
    requires Behind(g.groups, at, n) && FirstDecided(History(g)) && Passed(g.groups, n)
    ensures OnFile(BytesOf(g).files, at)
    ensures var rr := BinlogRead(BytesOf(g).files, at.index, at.offset);
            var flushed := Flatten(g.groups);
            && n <= |flushed|
            && Behind(g.groups, Position(rr.index, rr.offset), n)
            && (rr.index != at.index ==> Behind(g.groups, Position(rr.index, 0), n))
            && (n == |flushed| ==> rr.parsed == NoEntry)
            && (n < |flushed| && !Readable(flushed[n]) ==> rr.parsed == Invalid)
            && (n < |flushed| && Readable(flushed[n]) ==>
                  && rr.parsed == Complete(AsRead(flushed[n]), RecordLength(flushed[n]))
                  && Behind(g.groups, Position(rr.index, rr.offset + rr.parsed.length), n + 1))
  {
    hide EncodeAll, Flatten, Parse, RecordLength, Readable, Decided, CRecord, AsRead;
    var k :| At(g.groups, at.index, at.offset, k) && Count(g.groups, at.index, k) == n;
    var k' := ReadAt(g, at.index, at.offset, k);
    var rr := BinlogRead(BytesOf(g).files, at.index, at.offset);
    if rr.index != at.index {
      MovedToStart(BytesOf(g).files, at.index, at.offset);
    }
    var flushed := Flatten(g.groups);
    if n < |flushed| {
      assert History(g)[n] == flushed[n] && History(g)[..n] == flushed[..n];
      if Readable(flushed[n]) {
        assert At(g.groups, rr.index, rr.offset + rr.parsed.length, k' + 1);
      }
    }
  }

  lemma {:induction false} MovedToStart(files: seq<seq<Byte>>, index: nat, offset: nat)
    requires OnFile(files, Position(index, offset))
    ensures BinlogRead(files, index, offset).index != index ==> BinlogRead(files, index, offset).offset == 0
    decreases |files| - index
  {
  }

  /** The reader after a turn of the loop that reads record n. */
  lemma AdvanceIn(g: RecordLog, rd: Reader, n: nat, m: nat,
                  sent: bool, outcome: R.Delivery, marks: bool, now: int, clock: int)
    requires ReaderIn(g.groups, rd, n, m) && FirstDecided(History(g))
    requires n < |Flatten(g.groups)| && Readable(Flatten(g.groups)[n])
    ensures OnFile(BytesOf(g).files, rd.at)
    ensures var rr := BinlogRead(BytesOf(g).files, rd.at.index, rd.at.offset);
            var r := Flatten(g.groups)[n];
            && rr.parsed == Complete(AsRead(r), RecordLength(r))
            && ReaderIn(g.groups,
                        Advance(AfterRead(rd, rr), AsRead(r), rr.parsed.length, sent, outcome, marks, now, clock),
                        if sent && outcome != R.Done then n else n + 1,
                        if marks || rr.index != rd.at.index then n else m)
  {
    hide Behind, Flatten, BinlogRead, RecordLength, BytesOf, Readable, Passed, AsRead, R.Skipped, FirstDecided;
    ReadSame(g, rd.at, n);
    PassedOne(g.groups, n);
  }

  /** A turn that reads nothing, or meets a record it cannot read. */
  lemma PollIn(g: RecordLog, rd: Reader, n: nat, m: nat)
    requires ReaderIn(g.groups, rd, n, m) && FirstDecided(History(g))
    requires n < |Flatten(g.groups)| ==> !Readable(Flatten(g.groups)[n])
    ensures OnFile(BytesOf(g).files, rd.at)
    ensures var rr := BinlogRead(BytesOf(g).files, rd.at.index, rd.at.offset);
            && !rr.parsed.Complete?
            && ReaderIn(g.groups, AfterRead(rd, rr), n, if rr.index == rd.at.index then m else n)
  {
    hide Behind, Flatten, BinlogRead, BytesOf, Readable, Passed, FirstDecided;
    ReadSame(g, rd.at, n);
  }

  // ---------- one log, whatever the other servers do ----------

  ghost predicate TrackedReader(groups: seq<seq<Record>>, rd: Reader) {
    exists n: nat, m: nat :: ReaderIn(groups, rd, n, m)
  }

  /** The log is the text of its records, and every reader stands behind records that can be read. */
  ghost predicate Tracked(v: Server, g: RecordLog) {
    && g.groups != [] && v.log == BytesOf(g)
    && (forall j :: 0 <= j < |v.readers| ==> TrackedReader(g.groups, v.readers[j]))
  }

  lemma TrackedGrows(v: Server, g: RecordLog, h: RecordLog)
    requires Tracked(v, g) && Grows(g, h) && h.groups != []
    ensures Tracked(v.(log := BytesOf(h)), h)
  {
    hide ReaderIn, Grows, BytesOf;
    forall j | 0 <= j < |v.readers| ensures TrackedReader(h.groups, v.readers[j]) {
      assert TrackedReader(g.groups, v.readers[j]);
      var n: nat, m: nat :| ReaderIn(g.groups, v.readers[j], n, m);
      ReaderGrows(g, h, v.readers[j], n, m);
    }
  }

  lemma TrackedHandle(v: Server, g: RecordLog, r: Record) returns (h: RecordLog)
    requires Tracked(v, g)
    ensures v.log.files != [] && Tracked(Handle(v, r), h)
    ensures History(h) == History(g) + if R.Logged(v.store, r) then [r] else []
  {
    h := g;
    FilesOf(g);
    if R.Logged(v.store, r) {
      h := WriteRecord(g, r);
      WriteCommutes(g, r);
      WriteGrows(g, r);
      hide BytesOf, WriteRecord, Binlog.Write, Flatten, TrackedReader;
      TrackedGrows(v, g, h);
    }
  }

  lemma FilesOf(g: RecordLog)
    requires g.groups != []
    ensures BytesOf(g).files != []
  {
  }

  lemma TrackedReceive(v: Server, g: RecordLog, r: Record, outcome: R.Delivery) returns (h: RecordLog)
    requires Tracked(v, g)
    ensures v.log.files != [] && Tracked(Receive(v, r, outcome), h)
    ensures History(h) == History(g) + if !outcome.Refused? && R.Logged(v.store, r) then [r] else []
  {
    hide Handle, TrackedReader, BytesOf, History;
    h := TrackedHandle(v, g, r);
    if outcome.Refused? {
      h := g;
    }
  }

  /** A turn of the loop of one of the readers. */
  lemma TrackedTurn(c: System, act: Action, g: RecordLog)
    requires act.Ship? && Enabled(c, act) && Tracked(c.servers[act.from], g) && FirstDecided(History(g))
    ensures |Do(c, act).servers| == |c.servers| && Tracked(Do(c, act).servers[act.from], g)
  {
    hide BytesOf, Flatten, BinlogRead, Advance, AfterRead, ReaderIn, FirstDecided, Receive, Readable, AsRead,
      R.Transmit, R.Received, RecordLength, History, OnFile;
    var v, rd := c.servers[act.from], c.servers[act.from].readers[act.to];
    assert TrackedReader(g.groups, rd);
    var n: nat, m: nat :| ReaderIn(g.groups, rd, n, m);
    var flushed := Flatten(g.groups);
    if n < |flushed| && Readable(flushed[n]) {
      var sent := R.Transmit(AsRead(flushed[n]), true, true, 0, act.now);
      AdvanceIn(g, rd, n, m, sent.Some?, act.outcome, act.marks, act.now, act.clock);
    } else {
      PollIn(g, rd, n, m);
    }
  }

  /** Writing the mark and reopening at the mark. */
  lemma TrackedMove(v: Server, g: RecordLog, j: nat)
    requires Tracked(v, g) && j < |v.readers|
    ensures var rd := v.readers[j];
            && Tracked(v.(readers := v.readers[j := rd.(mark := rd.at)]), g)
            && Tracked(v.(readers := v.readers[j := rd.(at := rd.mark)]), g)
  {
    hide Behind, Passed, BytesOf;
    var rd := v.readers[j];
    assert TrackedReader(g.groups, rd);
    var n: nat, m: nat :| ReaderIn(g.groups, rd, n, m);
    assert ReaderIn(g.groups, rd.(mark := rd.at), n, n) && ReaderIn(g.groups, rd.(at := rd.mark), m, m);
  }

  lemma TrackedFlush(v: Server, g: RecordLog) returns (h: RecordLog)
    requires Tracked(v, g)
    ensures v.log.files != [] && Tracked(v.(log := Flush(v.log)), h)
    ensures History(h) == History(g) && h.pending == []
  {
    hide BytesOf, Flatten, TrackedReader;
    h := FlushRecords(g);
    FilesOf(g);
    FlushCommutes(g);
    FlushGrows(g);
    TrackedGrows(v, g, h);
  }

  lemma TrackedStep(c: System, act: Action, i: nat, g: RecordLog) returns (h: RecordLog)
    requires i < |c.servers| && Tracked(c.servers[i], g) && FirstDecided(History(g)) && Enabled(c, act)
    ensures |Do(c, act).servers| == |c.servers| && Tracked(Do(c, act).servers[i], h)
    ensures History(h) == History(g) + Writes(c, act, i)
  {
    hide Tracked, Handle, Receive, Drop, FirstDecided, History, R.Logged, R.Received, R.Transmit, BinlogRead, Advance,
      AfterRead, Flush, Accepted;
    var v := c.servers[i];
    h := g;
    match act
    case ClientWrite(x, r) =>
      if x == i {
        h := TrackedHandle(v, g, r);
      }
    case ClientWriteFails(x, k, drops) =>
      assert Tracked(Drop(v, k), g) by { DropTracked(v, g, k); }
    case FlushLog(x) =>
      if x == i {
        h := TrackedFlush(v, g);
      }
    case Ship(x, y, outcome, marks, now, clock) =>
      if x == i {
        TrackedTurn(c, act, g);
      } else if y == i {
        var sent := ToSend(c, x, y, now);
        if sent.Some? {
          h := TrackedReceive(v, g, R.Received(sent.value, clock), outcome);
          SameLogged(v.store, sent.value, clock);
        }
      }
    case WriteMark(x, y) =>
      if x == i {
        TrackedMove(v, g, y);
      }
    case Reconnect(x, y) =>
      if x == i {
        TrackedMove(v, g, y);
      }
  }

  lemma DropTracked(v: Server, g: RecordLog, k: R.FullKey)
    requires Tracked(v, g)
    ensures Tracked(Drop(v, k), g)
  {
    hide TrackedReader, BytesOf;
  }

  lemma SameLogged(st: R.Store, r: Record, clock: int)
    ensures R.Logged(st, R.Received(r, clock)) == R.Logged(st, r)
  {
  }

  // ---------- the abstraction ----------

  ghost predicate SameReader(groups: seq<seq<Record>>, c: Reader, a: R.Reader) {
    ReaderIn(groups, c, a.pos, a.mark) && c.skipped == a.skipped && c.clocks == a.clocks
  }

  ghost predicate SameServer(c: Server, g: RecordLog, a: R.Server) {
    && g.groups != [] && AllDecided(History(g)) && c.log == BytesOf(g)
    && a.store == c.store && a.lost == c.lost
    && a.hist == History(g) && a.flushed == |Flatten(g.groups)|
    && |a.readers| == |c.readers|
    && (forall j :: 0 <= j < |c.readers| ==> SameReader(g.groups, c.readers[j], a.readers[j]))
  }

  ghost predicate Same(c: System, gs: seq<RecordLog>, a: R.System) {
    && |c.servers| == |gs| == |a.servers| && c.owner == a.owner
    && (forall i :: 0 <= i < |gs| ==> SameServer(c.servers[i], gs[i], a.servers[i]))
  }

  lemma GrownServer(c: Server, g: RecordLog, a: R.Server, h: RecordLog, f: nat)
    requires SameServer(c, g, a) && Grows(g, h) && h.groups != [] && AllDecided(History(h)) && f == |Flatten(h.groups)|
    ensures SameServer(c.(log := BytesOf(h)), h, a.(hist := History(h), flushed := f))
  {
    hide ReaderIn, Grows, Flatten, BytesOf, Decided;
    forall j | 0 <= j < |c.readers| ensures SameReader(h.groups, c.readers[j], a.readers[j]) {
      ReaderGrows(g, h, c.readers[j], a.readers[j].pos, a.readers[j].mark);
    }
  }

  lemma HandleSame(c: Server, g: RecordLog, a: R.Server, r: Record) returns (h: RecordLog, f: nat)
    requires SameServer(c, g, a) && (R.Logged(a.store, r) ==> Decided(r))
    ensures SameServer(Handle(c, r), h, R.Handle(a, r, f))
    ensures R.FlushRange(a, r, f) || !R.Logged(a.store, r)
    ensures !R.Logged(a.store, r) ==> f == a.flushed
    ensures History(h) == History(g) + if R.Logged(a.store, r) then [r] else []
  {
    h, f := g, a.flushed;
    if R.Logged(a.store, r) {
      h := WriteRecord(g, r);
      f := |Flatten(h.groups)|;
      WriteCommutes(g, r);
      WriteGrows(g, r);
      hide BytesOf, WriteRecord, Binlog.Write, Flatten, Decided;
      GrownServer(c, g, a, h, f);
      var c', a' := c.(log := BytesOf(h)), a.(hist := History(h), flushed := f);
      assert Handle(c, r) == c'.(store := R.Apply(c.store, r), lost := c.lost - {R.KeyOf(r)});
    }
  }

  /** One server handles a command: the same at both levels. */
  lemma HandleStep(c: System, gs: seq<RecordLog>, a: R.System, j: nat, r: Record)
      returns (gs': seq<RecordLog>, f: nat)
    requires Same(c, gs, a) && j < |gs| && (R.Logged(c.servers[j].store, r) ==> Decided(r))
    ensures c.servers[j].log.files != []
    ensures R.FlushRange(a.servers[j], r, f) || !R.Logged(a.servers[j].store, r)
    ensures !R.Logged(a.servers[j].store, r) ==> f == a.servers[j].flushed
    ensures Same(c.(servers := c.servers[j := Handle(c.servers[j], r)]), gs',
                 a.(servers := a.servers[j := R.Handle(a.servers[j], r, f)]))
    ensures |gs'| == |gs| && gs' == gs[j := gs'[j]] && c.servers[j].store == a.servers[j].store
    ensures History(gs'[j]) == History(gs[j]) + if R.Logged(a.servers[j].store, r) then [r] else []
  {
    hide SameServer, Handle, R.Handle, History;
    var h;
    assert SameServer(c.servers[j], gs[j], a.servers[j]);
    FilesExist(c.servers[j], gs[j], a.servers[j]);
    h, f := HandleSame(c.servers[j], gs[j], a.servers[j], r);
    gs' := gs[j := h];
  }

  lemma FilesExist(c: Server, g: RecordLog, a: R.Server)
    requires SameServer(c, g, a)
    ensures c.log.files != [] && c.store == a.store
  {
  }

  lemma SetReaderSame(c: System, gs: seq<RecordLog>, a: R.System, i: nat, j: nat, rd: Reader, ra: R.Reader)
    requires Same(c, gs, a) && Peers(c, i, j) && SameReader(gs[i].groups, rd, ra)
    ensures R.Peers(a, i, j) && Same(SetReader(c, i, j, rd), gs, R.SetReader(a, i, j, ra))
  {
    hide SameReader, BytesOf, Flatten, History;
    var c', a' := SetReader(c, i, j, rd), R.SetReader(a, i, j, ra);
    forall l | 0 <= l < |gs|
      ensures SameServer(c'.servers[l], gs[l], a'.servers[l])
    {
      assert SameServer(c.servers[l], gs[l], a.servers[l]);
    }
  }

  lemma WithoutKeySame(c: System, gs: seq<RecordLog>, a: R.System, j: nat, k: R.FullKey)
    requires Same(c, gs, a) && j < |gs|
    ensures Same(c.(servers := c.servers[j := c.servers[j].(store := c.servers[j].store - {k})]), gs,
                 R.WithoutKey(a, j, k))
  {
    hide SameReader, BytesOf, Flatten, History;
    var c' := c.(servers := c.servers[j := c.servers[j].(store := c.servers[j].store - {k})]);
    var a' := R.WithoutKey(a, j, k);
    forall l | 0 <= l < |gs|
      ensures SameServer(c'.servers[l], gs[l], a'.servers[l])
    {
      assert SameServer(c.servers[l], gs[l], a.servers[l]);
    }
  }

  lemma SkippedAsRead(skipped: map<R.FullKey, int>, r: Record, sent: bool, outcome: R.Delivery, now: int)
    ensures R.Skipped(skipped, AsRead(r), sent, outcome, now) == R.Skipped(skipped, r, sent, outcome, now)
  {
  }

  /** The reader after a turn of the loop, at both levels. */
  lemma AdvanceSame(g: RecordLog, rd: Reader, ra: R.Reader, act: Action, sent: bool) returns (marks': bool)
    requires act.Ship? && FirstDecided(History(g)) && SameReader(g.groups, rd, ra)
    requires ra.pos < |Flatten(g.groups)| && Readable(Flatten(g.groups)[ra.pos])
    ensures OnFile(BytesOf(g).files, rd.at)
    ensures var rr := BinlogRead(BytesOf(g).files, rd.at.index, rd.at.offset);
            var r := Flatten(g.groups)[ra.pos];
            && rr.parsed == Complete(AsRead(r), RecordLength(r))
            && SameReader(g.groups,
                          Advance(AfterRead(rd, rr), AsRead(r), rr.parsed.length, sent, act.outcome, act.marks, act.now,
                                  act.clock),
                          R.Advance(ra, r, sent, act.outcome, marks', act.now, act.clock))
  {
    hide ReaderIn, Flatten, BinlogRead, RecordLength, BytesOf, Readable, AsRead, R.Skipped, FirstDecided;
    AdvanceIn(g, rd, ra.pos, ra.mark, sent, act.outcome, act.marks, act.now, act.clock);
    SkippedAsRead(ra.skipped, Flatten(g.groups)[ra.pos], sent, act.outcome, act.now);
    marks' := act.marks || BinlogRead(BytesOf(g).files, rd.at.index, rd.at.offset).index != rd.at.index;
  }

  lemma AllFirst(h: seq<Record>)
    requires AllDecided(h)
    ensures FirstDecided(h)
  {
  }

  lemma PollStep(c: System, gs: seq<RecordLog>, a: R.System, act: Action) returns (actions: seq<R.Action>)
    requires act.Ship? && Same(c, gs, a) && R.Peers(a, act.from, act.to) && Enabled(c, act)
    requires var n, flushed := a.servers[act.from].readers[act.to].pos, Flatten(gs[act.from].groups);
             n == |flushed| || (n < |flushed| && !Readable(flushed[n]))
    ensures R.Legal(a, actions) && Same(Do(c, act), gs, R.After(a, actions)) && R.NeverExpiring(actions)
    ensures ToSend(c, act.from, act.to, act.now) == None
  {
    hide ReaderIn, Flatten, BytesOf, BinlogRead, Readable, AsRead, FirstDecided;
    var i, j := act.from, act.to;
    var rd, ra := c.servers[i].readers[j], a.servers[i].readers[j];
    assert SameServer(c.servers[i], gs[i], a.servers[i]);
    AllFirst(History(gs[i]));
    PollIn(gs[i], rd, ra.pos, ra.mark);
    var rr := BinlogRead(c.servers[i].log.files, rd.at.index, rd.at.offset);
    var ra' := if rr.index == rd.at.index then ra else ra.(mark := ra.pos);
    SetReaderSame(c, gs, a, i, j, AfterRead(rd, rr), ra');
    if ra' == ra {
      actions := [];
      assert a.servers[i].readers[j := ra] == a.servers[i].readers;
      assert R.SetReader(a, i, j, ra).servers == a.servers;
    } else {
      actions := [R.WriteMark(i, j)];
      R.OneStep(a, R.WriteMark(i, j));
    }
  }

  /** The receiving side of a transmission, at both levels. */
  lemma ReceiveStep(c: System, gs: seq<RecordLog>, a: R.System, j: nat, r: Record, outcome: R.Delivery)
      returns (gs': seq<RecordLog>, f: nat)
    requires Same(c, gs, a) && j < |gs| && a.servers[j].flushed <= |a.servers[j].hist|
    requires !outcome.Refused? && R.Logged(c.servers[j].store, r) ==> Decided(r)
    ensures c.servers[j].log.files != [] && R.FlushRange(a.servers[j], r, f)
    ensures Same(c.(servers := c.servers[j := Receive(c.servers[j], r, outcome)]), gs',
                 a.(servers := a.servers[j := R.Receive(a.servers[j], r, outcome, f)]))
    ensures |gs'| == |gs| && gs' == gs[j := gs'[j]]
    ensures History(gs'[j])
         == History(gs[j]) + if !outcome.Refused? && R.Logged(c.servers[j].store, r) then [r] else []
  {
    hide SameServer, Handle, R.Handle, History;
    assert SameServer(c.servers[j], gs[j], a.servers[j]);
    FilesExist(c.servers[j], gs[j], a.servers[j]);
    if !outcome.Refused? {
      gs', f := HandleStep(c, gs, a, j, r);
    } else {
      gs', f := gs, a.servers[j].flushed;
      if outcome.drops && IsSet(r) {
        WithoutKeySame(c, gs, a, j, R.KeyOf(r));
      } else {
        assert c.servers[j := c.servers[j]] == c.servers && a.servers[j := a.servers[j]] == a.servers;
      }
    }
  }

  lemma WrittenProper(r: Record)
    requires Written(r)
    ensures R.Proper(r) && ValidOp(r.op)
  {
  }

  lemma ShipStep(c: System, gs: seq<RecordLog>, a: R.System, act: Action)
      returns (gs': seq<RecordLog>, actions: seq<R.Action>)
    requires act.Ship? && Same(c, gs, a) && R.Inv(a) && R.Peers(a, act.from, act.to) && Enabled(c, act)
    requires AllDecided(Writes(c, act, act.to))
    requires var n, flushed := a.servers[act.from].readers[act.to].pos, Flatten(gs[act.from].groups);
             n < |flushed| && Readable(flushed[n])
    ensures R.Legal(a, actions) && Same(Do(c, act), gs', R.After(a, actions)) && R.NeverExpiring(actions)
    ensures |gs'| == |gs| && gs' == gs[act.to := gs'[act.to]]
    ensures History(gs'[act.to]) == History(gs[act.to]) + Writes(c, act, act.to)
  {
    hide Flatten, BinlogRead, Receive, R.Receive, Advance, R.Advance, R.Inv, History, Readable, AsRead, Decided,
      R.Transmit, R.Received, R.Replica, R.Logged, RecordLength, Same;
    var i, j, outcome := act.from, act.to, act.outcome;
    var ra := a.servers[i].readers[j];
    var r, rd', marks' := ShipReader(c, gs, a, act);
    WrittenProper(r);
    R.TransmitIs(r, act.now);
    var sent := R.Transmit(AsRead(r), true, true, 0, act.now);
    var ra' := R.Advance(ra, r, sent.Some?, outcome, marks', act.now, act.clock);
    var f := a.servers[j].flushed;
    gs' := gs;
    FlushedWithin(a, j);
    if sent.Some? {
      var m := R.Received(sent.value, act.clock);
      SameLogged(c.servers[j].store, R.Replica(r), act.clock);
      assert !outcome.Refused? && R.Logged(c.servers[j].store, m) ==> Writes(c, act, j) == [m] && Decided([m][0]);
      gs', f := ReceiveStep(SetReader(c, i, j, rd'), gs, R.SetReader(a, i, j, ra'), j, m, outcome);
    }
    var w := R.Ship(i, j, outcome, marks', act.now, act.clock, f);
    actions := [w];
    assert R.FlushRange(a.servers[j], R.Replica(r), f);
    R.OneStep(a, w);
  }

  /** The reading side of a turn that reads a record: what it reads, and the reader behind it. */
  lemma ShipReader(c: System, gs: seq<RecordLog>, a: R.System, act: Action)
      returns (r: Record, rd': Reader, marks': bool)
    requires act.Ship? && Same(c, gs, a) && R.Inv(a) && R.Peers(a, act.from, act.to) && Enabled(c, act)
    requires var n, flushed := a.servers[act.from].readers[act.to].pos, Flatten(gs[act.from].groups);
             n < |flushed| && Readable(flushed[n])
    ensures var rd, ra := c.servers[act.from].readers[act.to], a.servers[act.from].readers[act.to];
            var rr := BinlogRead(c.servers[act.from].log.files, rd.at.index, rd.at.offset);
            var sent := R.Transmit(AsRead(r), true, true, 0, act.now);
            && ra.pos < a.servers[act.from].flushed <= |a.servers[act.from].hist|
            && r == a.servers[act.from].hist[ra.pos] && Written(r)
            && rr.parsed == Complete(AsRead(r), RecordLength(r)) && ToSend(c, act.from, act.to, act.now) == sent
            && rd' == Advance(AfterRead(rd, rr), AsRead(r), rr.parsed.length, sent.Some?, act.outcome, act.marks,
                              act.now, act.clock)
            && Same(SetReader(c, act.from, act.to, rd'), gs,
                    R.SetReader(a, act.from, act.to,
                                R.Advance(ra, r, sent.Some?, act.outcome, marks', act.now, act.clock)))
    ensures c.servers[act.to].store == a.servers[act.to].store && |gs| == |a.servers|
  {
    hide SameReader, Flatten, BytesOf, BinlogRead, Advance, R.Advance, R.KeyOk, R.Replay, Readable, AsRead, Decided,
      R.Transmit, RecordLength, FirstDecided;
    var i, j := act.from, act.to;
    var rd, ra := c.servers[i].readers[j], a.servers[i].readers[j];
    assert SameServer(c.servers[i], gs[i], a.servers[i]) && SameServer(c.servers[j], gs[j], a.servers[j]);
    FlushedWithin(a, i);
    AllFirst(History(gs[i]));
    r := Flatten(gs[i].groups)[ra.pos];
    assert r == a.servers[i].hist[ra.pos] && Written(r) by { FlushedRecord(gs[i], ra.pos); }
    var sent := R.Transmit(AsRead(r), true, true, 0, act.now);
    marks' := AdvanceSame(gs[i], rd, ra, act, sent.Some?);
    var rr := BinlogRead(c.servers[i].log.files, rd.at.index, rd.at.offset);
    rd' := Advance(AfterRead(rd, rr), AsRead(r), rr.parsed.length, sent.Some?, act.outcome, act.marks, act.now,
                   act.clock);
    SetReaderSame(c, gs, a, i, j, rd', R.Advance(ra, r, sent.Some?, act.outcome, marks', act.now, act.clock));
  }

  lemma FlushedRecord(g: RecordLog, n: nat)
    requires n < |Flatten(g.groups)| && AllDecided(History(g))
    ensures n < |History(g)| && History(g)[n] == Flatten(g.groups)[n] && Decided(Flatten(g.groups)[n])
    ensures Written(Flatten(g.groups)[n])
  {
    hide Flatten;
    assert History(g)[n] == Flatten(g.groups)[n];
  }

  /** What step `act` does to the logs, server by server. */
  ghost predicate LogsGrow(c: System, act: Action, gs: seq<RecordLog>, gs': seq<RecordLog>) {
    && |gs'| == |gs|
    && (Enabled(c, act) ==> forall l :: 0 <= l < |gs| ==> History(gs'[l]) == History(gs[l]) + Writes(c, act, l))
  }

  lemma StepSame(c: System, gs: seq<RecordLog>, a: R.System, act: Action)
      returns (gs': seq<RecordLog>, actions: seq<R.Action>)
    requires Same(c, gs, a) && R.Inv(a) && Enabled(c, act)
    requires forall l :: 0 <= l < |gs| ==> AllDecided(Writes(c, act, l))
    ensures R.Legal(a, actions) && Same(Do(c, act), gs', R.After(a, actions))
    ensures LogsGrow(c, act, gs, gs')
    ensures NeverExpiring([act]) ==> R.NeverExpiring(actions)
  {
    hide SameReader, Flatten, BytesOf, R.Inv, ShipOne, Decided, Readable, ToSend, SameServer, History, Writes;
    gs' := gs;
    assert act == [act][0] && |gs| == |c.servers|;
    match act
    case ClientWrite(i, r) =>
      assert AllDecided(Writes(c, act, i));
      gs', actions := ClientStep(c, gs, a, i, r);
    case ClientWriteFails(i, k, drops) =>
      NoWrites(c, act);
      actions := FailStep(c, gs, a, i, k, drops);
    case FlushLog(i) =>
      NoWrites(c, act);
      gs', actions := FlushStep(c, gs, a, i);
    case Ship(i, j, outcome, marks, now, clock) =>
      assert AllDecided(Writes(c, act, j));
      gs', actions := AnyShipStep(c, gs, a, act);
    case WriteMark(i, j) =>
      NoWrites(c, act);
      MoveSame(c, gs, a, i, j);
      R.OneStep(a, R.WriteMark(i, j));
      actions := [R.WriteMark(i, j)];
    case Reconnect(i, j) =>
      NoWrites(c, act);
      MoveSame(c, gs, a, i, j);
      R.OneStep(a, R.Reconnect(i, j));
      actions := [R.Reconnect(i, j)];
  }

  /** Only commands are logged. */
  lemma NoWrites(c: System, act: Action)
    requires Enabled(c, act) && !act.ClientWrite? && !act.Ship?
    ensures forall l: nat :: Writes(c, act, l) == []
  {
  }

  lemma ClientStep(c: System, gs: seq<RecordLog>, a: R.System, i: nat, r: Record)
      returns (gs': seq<RecordLog>, actions: seq<R.Action>)
    requires Same(c, gs, a) && R.Inv(a) && Enabled(c, ClientWrite(i, r))
    requires AllDecided(Writes(c, ClientWrite(i, r), i))
    ensures R.Legal(a, actions) && Same(Do(c, ClientWrite(i, r)), gs', R.After(a, actions))
    ensures LogsGrow(c, ClientWrite(i, r), gs, gs') && (r.expires == 0 ==> R.NeverExpiring(actions))
  {
    hide SameReader, Flatten, BytesOf, R.Inv, Handle, R.Handle, Decided, SameServer, History, R.Logged;
    WrittenProper(r);
    assert R.Logged(c.servers[i].store, r) ==> Decided([r][0]);
    var f;
    gs', f := HandleStep(c, gs, a, i, r);
    FlushedWithin(a, i);
    var w := R.ClientWrite(i, r, f);
    R.OneStep(a, w);
    actions := [w];
  }

  lemma FailStep(c: System, gs: seq<RecordLog>, a: R.System, i: nat, k: R.FullKey, drops: bool)
      returns (actions: seq<R.Action>)
    requires Same(c, gs, a) && Enabled(c, ClientWriteFails(i, k, drops))
    ensures R.Legal(a, actions) && Same(Do(c, ClientWriteFails(i, k, drops)), gs, R.After(a, actions))
    ensures R.NeverExpiring(actions)
  {
    hide SameReader, Flatten, BytesOf, History;
    var w := R.ClientWriteFails(i, k, drops);
    R.OneStep(a, w);
    actions := [w];
    assert SameServer(c.servers[i], gs[i], a.servers[i]);
  }

  lemma FlushStep(c: System, gs: seq<RecordLog>, a: R.System, i: nat)
      returns (gs': seq<RecordLog>, actions: seq<R.Action>)
    requires Same(c, gs, a) && Enabled(c, FlushLog(i))
    ensures actions == [R.Flush(i)] && R.Legal(a, actions)
    ensures Same(Do(c, FlushLog(i)), gs', R.After(a, actions))
    ensures |gs'| == |gs| && gs' == gs[i := FlushRecords(gs[i])]
    ensures History(gs'[i]) == History(gs[i])
  {
    hide SameReader, Flatten, BytesOf, Decided;
    assert SameServer(c.servers[i], gs[i], a.servers[i]);
    FlushCommutes(gs[i]);
    FlushGrows(gs[i]);
    var h := FlushRecords(gs[i]);
    GrownServer(c.servers[i], gs[i], a.servers[i], h, |Flatten(h.groups)|);
    gs' := gs[i := h];
    R.OneStep(a, R.Flush(i));
    actions := [R.Flush(i)];
    assert |History(h)| == |Flatten(h.groups)| by { assert h.pending == []; }
  }

  lemma AnyShipStep(c: System, gs: seq<RecordLog>, a: R.System, act: Action)
      returns (gs': seq<RecordLog>, actions: seq<R.Action>)
    requires act.Ship? && Same(c, gs, a) && R.Inv(a) && Enabled(c, act) && AllDecided(Writes(c, act, act.to))
    ensures R.Legal(a, actions) && Same(Do(c, act), gs', R.After(a, actions))
    ensures LogsGrow(c, act, gs, gs') && R.NeverExpiring(actions)
  {
    hide SameReader, Flatten, BytesOf, R.Inv, ShipOne, Readable, ToSend;
    var i, j := act.from, act.to;
    assert SameServer(c.servers[i], gs[i], a.servers[i]);
    PositionWithin(a, i, j);
    var n, flushed := a.servers[i].readers[j].pos, Flatten(gs[i].groups);
    if n == |flushed| || !Readable(flushed[n]) {
      gs' := gs;
      actions := PollStep(c, gs, a, act);
    } else {
      gs', actions := ShipStep(c, gs, a, act);
    }
  }

  lemma FlushedWithin(a: R.System, i: nat)
    requires R.Inv(a) && i < |a.servers|
    ensures a.servers[i].flushed <= |a.servers[i].hist|
  {
    assert R.ServerOk(a, i);
  }

  lemma PositionWithin(a: R.System, i: nat, j: nat)
    requires R.Inv(a) && R.Peers(a, i, j)
    ensures a.servers[i].readers[j].pos <= a.servers[i].flushed
  {
    assert R.ReaderOk(a, i, j);
  }

  /** Writing the mark and reopening at the mark, at both levels. */
  lemma MoveSame(c: System, gs: seq<RecordLog>, a: R.System, i: nat, j: nat)
    requires Same(c, gs, a) && Peers(c, i, j)
    ensures R.Peers(a, i, j)
    ensures var rd, ra := c.servers[i].readers[j], a.servers[i].readers[j];
            && Same(SetReader(c, i, j, rd.(mark := rd.at)), gs, R.SetReader(a, i, j, ra.(mark := ra.pos)))
            && Same(SetReader(c, i, j, rd.(at := rd.mark)), gs, R.SetReader(a, i, j, ra.(pos := ra.mark)))
  {
    hide Same, Behind, Passed;
    ReaderOf(c, gs, a, i, j);
    var rd, ra := c.servers[i].readers[j], a.servers[i].readers[j];
    assert ReaderIn(gs[i].groups, rd, ra.pos, ra.mark);
    SetReaderSame(c, gs, a, i, j, rd.(mark := rd.at), ra.(mark := ra.pos));
    SetReaderSame(c, gs, a, i, j, rd.(at := rd.mark), ra.(pos := ra.mark));
  }

  lemma ReaderOf(c: System, gs: seq<RecordLog>, a: R.System, i: nat, j: nat)
    requires Same(c, gs, a) && Peers(c, i, j)
    ensures i < |gs| && R.Peers(a, i, j) && SameReader(gs[i].groups, c.servers[i].readers[j], a.servers[i].readers[j])
    ensures SameServer(c.servers[i], gs[i], a.servers[i])
  {
  }

  // ---------- whole runs ----------

  predicate Initial(s: System) {
    var start := Position(0, 0);
    forall i :: 0 <= i < |s.servers| ==>
      && s.servers[i].store == map[] && s.servers[i].log == Log([[]], [])
      && s.servers[i].readers == seq(|s.servers|, _ => Reader(start, start, map[], {})) && s.servers[i].lost == {}
  }

  predicate Legal(s: System, actions: seq<Action>)
    decreases |actions|
  {
    actions == [] || (Enabled(s, actions[0]) && Legal(Do(s, actions[0]), actions[1..]))
  }

  function After(s: System, actions: seq<Action>): (t: System)
    requires Legal(s, actions)
    decreases |actions|
  {
    if actions == [] then s else After(Do(s, actions[0]), actions[1..])
  }

  /** Everything a run appends to the log of server l, in order. */
  function Logs(s: System, actions: seq<Action>, l: nat): (rs: seq<Record>)
    requires Legal(s, actions)
    decreases |actions|
  {
    if actions == [] then [] else Writes(s, actions[0], l) + Logs(Do(s, actions[0]), actions[1..], l)
  }

  /** Every record logged in the run comes back when it is read, or stops the reader whatever follows it. */
  ghost predicate LogsDecided(s: System, actions: seq<Action>)
    requires Legal(s, actions)
  {
    forall l :: 0 <= l < |s.servers| ==> AllDecided(Logs(s, actions, l))
  }

  predicate NeverExpiring(actions: seq<Action>) {
    forall n :: 0 <= n < |actions| && actions[n].ClientWrite? ==> actions[n].record.expires == 0
  }

  lemma SameSize(s: System, a: Action)
    requires Enabled(s, a)
    ensures |Do(s, a).servers| == |s.servers|
  {
    hide Handle, Receive, Drop, BinlogRead, Accepted, R.Transmit;
  }

  lemma LogsSplit(s: System, actions: seq<Action>)
    requires Legal(s, actions) && actions != [] && LogsDecided(s, actions)
    ensures forall l :: 0 <= l < |s.servers| ==> AllDecided(Writes(s, actions[0], l))
    ensures LogsDecided(Do(s, actions[0]), actions[1..])
  {
    hide Enabled, Do, Writes, Decided;
    SameSize(s, actions[0]);
    forall l | 0 <= l < |s.servers|
      ensures AllDecided(Writes(s, actions[0], l)) && AllDecided(Logs(Do(s, actions[0]), actions[1..], l))
    {
      assert AllDecided(Logs(s, actions, l));
      AllDecidedParts(Writes(s, actions[0], l), Logs(Do(s, actions[0]), actions[1..], l));
    }
  }

  lemma AllDecidedParts(xs: seq<Record>, ys: seq<Record>)
    requires AllDecided(xs + ys)
    ensures AllDecided(xs) && AllDecided(ys)
  {
    hide Decided;
    forall n | 0 <= n < |xs| ensures Decided(xs[n]) { assert (xs + ys)[n] == xs[n]; }
    forall n | 0 <= n < |ys| ensures Decided(ys[n]) { assert (xs + ys)[|xs| + n] == ys[n]; }
  }

  lemma InitialTracked(c: System, i: nat) returns (g: RecordLog)
    requires Initial(c) && i < |c.servers|
    ensures Tracked(c.servers[i], g) && History(g) == []
  {
    g := RecordLog([[]], []);
    assert BytesOf(g) == Log([[]], []) by { assert BytesOf(g).files == [[]]; }
    EmptyReader(Reader(Position(0, 0), Position(0, 0), map[], {}));
  }

  lemma EmptyReader(rd: Reader)
    requires rd.at == rd.mark == Position(0, 0)
    ensures Flatten([[]]) == [] && ReaderIn([[]], rd, 0, 0)
  {
    var groups: seq<seq<Record>> := [[]];
    assert groups[..0] == [];
    assert Flatten(groups) == [];
    assert groups[0][..0] == [];
    assert At(groups, 0, 0, 0) && Count(groups, 0, 0) == 0;
  }

  lemma InitialSame(c: System) returns (gs: seq<RecordLog>, a: R.System)
    requires Initial(c)
    ensures R.Initial(a) && Same(c, gs, a)
    ensures forall l :: 0 <= l < |gs| ==> History(gs[l]) == []
  {
    hide ReaderIn;
    var empty := RecordLog([[]], []);
    var v := R.Server(map[], [], 0, seq(|c.servers|, _ => R.Reader(0, 0, map[], {})), {});
    gs := seq(|c.servers|, _ => empty);
    a := R.System(seq(|c.servers|, _ => v), c.owner);
    assert BytesOf(empty) == Log([[]], []) by { assert BytesOf(empty).files == [[]]; }
    EmptyReader(Reader(Position(0, 0), Position(0, 0), map[], {}));
  }

  lemma FirstPart(h: seq<Record>, more: seq<Record>)
    requires FirstDecided(h + more)
    ensures FirstDecided(h)
  {
    hide Decided, Readable;
    forall n | 0 <= n < |h| && AllReadable(h[..n]) && !Readable(h[n])
      ensures Decided(h[n])
    {
      assert (h + more)[..n] == h[..n] && (h + more)[n] == h[n];
    }
  }

  /** In every run the log stays tracked, unless its first unreadable record is an undecided one. */
  lemma {:induction false} TrackedRun(c: System, actions: seq<Action>, i: nat, g: RecordLog) returns (h: RecordLog)
    requires i < |c.servers| && Tracked(c.servers[i], g) && Legal(c, actions)
    requires FirstDecided(History(g) + Logs(c, actions, i))
    ensures |After(c, actions).servers| == |c.servers|
    ensures Tracked(After(c, actions).servers[i], h) && History(h) == History(g) + Logs(c, actions, i)
    decreases |actions|
  {
    hide Tracked, Do, Enabled, History, Writes, FirstDecided;
    if actions == [] {
      h := g;
    } else {
      FirstPart(History(g), Logs(c, actions, i));
      h := TrackedStep(c, actions[0], i, g);
      var rest := Logs(Do(c, actions[0]), actions[1..], i);
      assert History(h) + rest == History(g) + Logs(c, actions, i);
      h := TrackedRun(Do(c, actions[0]), actions[1..], i, h);
    }
  }

  /** Every run over bytes is a run over records. */
  lemma {:induction false} RunSame(c: System, gs: seq<RecordLog>, a: R.System, actions: seq<Action>)
      returns (gs': seq<RecordLog>, abstracted: seq<R.Action>)
    requires Same(c, gs, a) && R.Inv(a) && Legal(c, actions) && LogsDecided(c, actions)
    ensures R.Legal(a, abstracted) && Same(After(c, actions), gs', R.After(a, abstracted))
    ensures R.Inv(R.After(a, abstracted)) && (NeverExpiring(actions) ==> R.NeverExpiring(abstracted))
    ensures |gs'| == |gs| && forall l :: 0 <= l < |gs| ==> History(gs'[l]) == History(gs[l]) + Logs(c, actions, l)
    decreases |actions|
  {
    hide Same, R.Inv, Do, Enabled, R.Do, R.Enabled, History, Writes, LogsDecided, AllDecided;
    gs', abstracted := gs, [];
    if actions != [] {
      var xs;
      LogsSplit(c, actions);
      SameSizes(c, gs, a);
      gs', xs := StepSame(c, gs, a, actions[0]);
      R.RunKeeps(a, xs);
      var ys;
      gs', ys := RunSame(Do(c, actions[0]), gs', R.After(a, xs), actions[1..]);
      R.RunsCompose(a, xs, ys);
      abstracted := xs + ys;
      assert NeverExpiring(actions) ==> NeverExpiring([actions[0]]) && NeverExpiring(actions[1..]);
    }
  }

  lemma SameSizes(c: System, gs: seq<RecordLog>, a: R.System)
    requires Same(c, gs, a)
    ensures |gs| == |c.servers| == |a.servers| && a.owner == c.owner
  {
  }

  /** From the start: the run over records, and the logs as records. */
  lemma RunFromStart(c: System, actions: seq<Action>)
      returns (gs: seq<RecordLog>, a0: R.System, abstracted: seq<R.Action>)
    requires Initial(c) && Legal(c, actions) && LogsDecided(c, actions)
    ensures R.Initial(a0) && R.Legal(a0, abstracted) && a0.owner == c.owner
    ensures Same(After(c, actions), gs, R.After(a0, abstracted)) && R.Inv(R.After(a0, abstracted))
    ensures R.After(a0, abstracted).owner == c.owner && (NeverExpiring(actions) ==> R.NeverExpiring(abstracted))
    ensures forall l :: 0 <= l < |gs| ==> History(gs[l]) == Logs(c, actions, l)
  {
    hide R.Inv, Same, History, Logs, Do, Enabled, Writes, R.Initial, LogsDecided;
    var gs0;
    gs0, a0 := InitialSame(c);
    SameSizes(c, gs0, a0);
    R.InitialInv(a0);
    gs, abstracted := RunSame(c, gs0, a0, actions);
    R.RunKeeps(a0, abstracted);
    assert |gs| == |gs0|;
  }

  // ---------- what runs guarantee ----------

  /** The reader has nothing more to read and nothing waits in the buffer. */
  predicate CaughtUp(s: System, i: nat, j: nat) {
    && Peers(s, i, j) && OnFile(s.servers[i].log.files, s.servers[i].readers[j].at)
    && s.servers[i].log.buffer == []
    && var at := s.servers[i].readers[j].at;
       BinlogRead(s.servers[i].log.files, at.index, at.offset).parsed == NoEntry
  }

  /** A reader of a tracked log that has nothing more to read has read everything. */
  lemma CaughtUpReader(v: Server, g: RecordLog, rd: Reader, n: nat, m: nat)
    requires g.groups != [] && v.log == BytesOf(g) && ReaderIn(g.groups, rd, n, m) && FirstDecided(History(g))
    requires v.log.buffer == [] && OnFile(v.log.files, rd.at)
    requires BinlogRead(v.log.files, rd.at.index, rd.at.offset).parsed == NoEntry
    ensures n == |History(g)| && AllReadable(History(g))
  {
    hide EncodeAll, Flatten, BinlogRead, Readable, AsRead, FirstDecided, OnFile;
    ReadSame(g, rd.at, n);
    EncodedEmpty(g.pending);
    var flushed := Flatten(g.groups);
    assert flushed[..|flushed|] == flushed;
  }

  lemma CaughtUpSame(c: System, gs: seq<RecordLog>, a: R.System, i: nat, j: nat)
    requires Same(c, gs, a) && CaughtUp(c, i, j)
    ensures R.CaughtUp(a, i, j) && i < |gs|
  {
    hide BytesOf, Flatten, BinlogRead, Readable, ReaderIn, FirstDecided, OnFile, History;
    assert SameServer(c.servers[i], gs[i], a.servers[i]);
    AllFirst(History(gs[i]));
    var rd, ra := c.servers[i].readers[j], a.servers[i].readers[j];
    CaughtUpReader(c.servers[i], gs[i], rd, ra.pos, ra.mark);
  }

  /** How a key stands at two servers of the run. */
  ghost predicate SettledAt(t: System, h: seq<Record>, i: nat, j: nat, k: R.FullKey)
    requires Peers(t, i, j)
  {
    var v, rd := t.servers[i], t.servers[i].readers[j];
    R.Settled(h, rd.skipped, rd.clocks, v.lost, v.store, t.servers[j].store, k)
  }

  /**
    Convergence over bytes: whatever the interleaving, once the reader from i to j finds nothing
    more in i's files and i's buffer is empty, j agrees with i on every key written through i,
    except exactly the keys that a failed set unlinked at i, and possibly keys whose last value had
    expired when the reader came to it, which i no longer shows.
   */
  lemma Convergence(c: System, actions: seq<Action>, i: nat, j: nat)
    requires Initial(c) && Legal(c, actions) && LogsDecided(c, actions) && CaughtUp(After(c, actions), i, j)
    ensures forall k :: c.owner(k) == i ==> SettledAt(After(c, actions), Logs(c, actions, i), i, j, k)
  {
    hide R.Inv, R.Settled, Legal, After, R.Legal, R.After, Logs, LogsDecided, ReaderIn, BytesOf, R.Initial;
    var gs, a0, xs := RunFromStart(c, actions);
    var t, b := After(c, actions), R.After(a0, xs);
    CaughtUpSame(t, gs, b, i, j);
    ReaderOf(t, gs, b, i, j);
    assert SameServer(t.servers[j], gs[j], b.servers[j]);
    forall k | c.owner(k) == i
      ensures SettledAt(t, Logs(c, actions, i), i, j, k)
    {
      R.CaughtUpKey(b, i, j, k);
    }
  }

  /**
    Where a reader stands in any run, wherever its mark has sent it back to and whatever happens to
    the other logs: behind n readable records of what was logged, f of which have been flushed. It
    gets record n if and only if that is flushed and readable, "no entry" if it is not flushed, and
    EINVAL if it cannot be read.
   */
  lemma ReaderNeverLost(c: System, actions: seq<Action>, i: nat, j: nat) returns (n: nat, f: nat)
    requires Initial(c) && Legal(c, actions) && Peers(After(c, actions), i, j)
    requires FirstDecided(Logs(c, actions, i))
    ensures var v, h := After(c, actions).servers[i], Logs(c, actions, i);
            var at := v.readers[j].at;
            && n <= f <= |h| && AllReadable(h[..n])
            && v.log.buffer == EncodeAll(h[f..])
            && OnFile(v.log.files, at)
            && BinlogRead(v.log.files, at.index, at.offset).parsed
               == (if n == f then NoEntry
                   else if Readable(h[n]) then Complete(AsRead(h[n]), RecordLength(h[n]))
                   else Invalid)
  {
    hide Flatten, BinlogRead, Legal, After, Logs, Readable, AsRead, RecordLength, EncodeAll, FirstDecided, Tracked,
      Initial, Behind;
    SameSizeRun(c, actions);
    var g := LogFromStart(c, actions, i);
    var v, rd := After(c, actions).servers[i], After(c, actions).servers[i].readers[j];
    var m;
    n, m := ReaderOfLog(v, g, j);
    ReadSame(g, rd.at, n);
    var h, flushed := Logs(c, actions, i), Flatten(g.groups);
    f := |flushed|;
    assert h[f..] == g.pending;
    assert h[..n] == flushed[..n];
  }

  lemma {:induction false} SameSizeRun(c: System, actions: seq<Action>)
    requires Legal(c, actions)
    ensures |After(c, actions).servers| == |c.servers|
    decreases |actions|
  {
    hide Do, Enabled;
    if actions != [] {
      SameSize(c, actions[0]);
      SameSizeRun(Do(c, actions[0]), actions[1..]);
    }
  }

  lemma LogFromStart(c: System, actions: seq<Action>, i: nat) returns (g: RecordLog)
    requires Initial(c) && Legal(c, actions) && i < |c.servers| && FirstDecided(Logs(c, actions, i))
    ensures |After(c, actions).servers| == |c.servers|
    ensures Tracked(After(c, actions).servers[i], g) && History(g) == Logs(c, actions, i)
  {
    hide Tracked, Legal, After, Logs, FirstDecided, Initial, History;
    g := InitialTracked(c, i);
    assert [] + Logs(c, actions, i) == Logs(c, actions, i);
    g := TrackedRun(c, actions, i, g);
  }

  lemma ReaderOfLog(v: Server, g: RecordLog, j: nat) returns (n: nat, m: nat)
    requires Tracked(v, g) && j < |v.readers|
    ensures ReaderIn(g.groups, v.readers[j], n, m) && v.log == BytesOf(g) && g.groups != []
  {
    hide ReaderIn, BytesOf;
    assert TrackedReader(g.groups, v.readers[j]);
    n, m :| ReaderIn(g.groups, v.readers[j], n, m);
  }

  // ---------- what clients may send ----------

  /** It holds of a record and of the copies that servers with these clocks make of it. */
  ghost predicate Everywhere(p: Record -> bool, r: Record, clocks: set<int>) {
    p(r) && forall clock :: clock in clocks ==> p(R.Received(R.Replica(r), clock))
  }

  /** It holds of what the client sends, and the receiver's clock is one of these. */
  ghost predicate SentWith(p: Record -> bool, clocks: set<int>, x: Action) {
    (x.ClientWrite? ==> Everywhere(p, x.record, clocks)) && (x.Ship? ==> x.clock in clocks)
  }

  /** So it holds of everything in a log: of source records with all their copies. */
  ghost predicate LoggedWith(p: Record -> bool, clocks: set<int>, r: Record) {
    Written(r) && p(r) && (IsSource(r) ==> Everywhere(p, r, clocks))
  }

  ghost predicate AllLoggedWith(p: Record -> bool, clocks: set<int>, h: seq<Record>) {
    forall n :: 0 <= n < |h| ==> LoggedWith(p, clocks, h[n])
  }

  lemma ReceivedWritten(r: Record, clock: int)
    requires Written(r)
    ensures Written(R.Received(R.Replica(r), clock)) && !IsSource(R.Received(R.Replica(r), clock))
  {
  }

  lemma WritesWith(p: Record -> bool, clocks: set<int>, c: System, gs: seq<RecordLog>, a: R.System, act: Action, l: nat)
    requires Same(c, gs, a) && R.Inv(a) && Enabled(c, act) && SentWith(p, clocks, act)
    requires forall i :: 0 <= i < |gs| ==> AllLoggedWith(p, clocks, History(gs[i]))
    ensures AllLoggedWith(p, clocks, Writes(c, act, l))
  {
    hide Flatten, BinlogRead, Readable, AsRead, R.Inv, BytesOf, Written, R.Transmit, R.Received, R.Replica, R.Logged,
      ReaderIn, FirstDecided, Decided, OnFile;
    if act.ClientWrite? {
      assert Written(act.record);
    } else if act.Ship? && ToSend(c, act.from, act.to, act.now).Some? {
      var r := SentRecord(c, gs, a, act);
      assert LoggedWith(p, clocks, r);
      ReceivedWritten(r, act.clock);
    }
  }

  /** What is sent is the copy of a source record of the sender's log. */
  lemma SentRecord(c: System, gs: seq<RecordLog>, a: R.System, act: Action) returns (r: Record)
    requires act.Ship? && Same(c, gs, a) && R.Inv(a) && Enabled(c, act)
    requires ToSend(c, act.from, act.to, act.now).Some?
    ensures act.from < |gs| && r in History(gs[act.from]) && IsSource(r)
    ensures ToSend(c, act.from, act.to, act.now) == Some(R.Replica(r))
  {
    hide Flatten, BinlogRead, Readable, AsRead, R.Inv, BytesOf, R.Transmit, FirstDecided, Decided, OnFile, Behind;
    var i, j := act.from, act.to;
    ReaderOf(c, gs, a, i, j);
    var ra := a.servers[i].readers[j];
    AllFirst(History(gs[i]));
    ReadSame(gs[i], c.servers[i].readers[j].at, ra.pos);
    r := Flatten(gs[i].groups)[ra.pos];
    FlushedRecord(gs[i], ra.pos);
    WrittenProper(r);
    R.TransmitIs(r, act.now);
  }

  /** What holds of the client's records and their copies holds of all that any server logs. */
  lemma {:induction false} LogsWith(p: Record -> bool, clocks: set<int>, c: System, gs: seq<RecordLog>, a: R.System,
                                    actions: seq<Action>)
    requires Same(c, gs, a) && R.Inv(a) && Legal(c, actions)
    requires forall r :: p(r) && Written(r) ==> Decided(r)
    requires forall i :: 0 <= i < |gs| ==> AllLoggedWith(p, clocks, History(gs[i]))
    requires forall x :: x in actions ==> SentWith(p, clocks, x)
    ensures forall l: nat :: AllLoggedWith(p, clocks, Logs(c, actions, l))
    decreases |actions|
  {
    hide Same, R.Inv, Do, Enabled, Writes, Decided, Written, R.Do, R.Enabled, SentWith, Everywhere, History;
    if actions != [] {
      var act := actions[0];
      forall l: nat ensures AllLoggedWith(p, clocks, Writes(c, act, l)) && AllDecided(Writes(c, act, l)) {
        WritesWith(p, clocks, c, gs, a, act, l);
      }
      var gs', xs := StepSame(c, gs, a, act);
      R.RunKeeps(a, xs);
      forall i | 0 <= i < |gs'| ensures AllLoggedWith(p, clocks, History(gs'[i])) {
        assert History(gs'[i]) == History(gs[i]) + Writes(c, act, i);
        WithBoth(p, clocks, History(gs[i]), Writes(c, act, i));
      }
      LogsWith(p, clocks, Do(c, act), gs', R.After(a, xs), actions[1..]);
      forall l: nat ensures AllLoggedWith(p, clocks, Logs(c, actions, l)) {
        WithBoth(p, clocks, Writes(c, act, l), Logs(Do(c, act), actions[1..], l));
      }
    }
  }

  lemma WithBoth(p: Record -> bool, clocks: set<int>, xs: seq<Record>, ys: seq<Record>)
    requires AllLoggedWith(p, clocks, xs) && AllLoggedWith(p, clocks, ys)
    ensures AllLoggedWith(p, clocks, xs + ys)
  {
    hide LoggedWith;
  }

  lemma LogsFromStart(p: Record -> bool, clocks: set<int>, c: System, actions: seq<Action>)
    requires Initial(c) && Legal(c, actions)
    requires forall r :: p(r) && Written(r) ==> Decided(r)
    requires forall x :: x in actions ==> SentWith(p, clocks, x)
    ensures forall l: nat :: AllLoggedWith(p, clocks, Logs(c, actions, l))
  {
    hide R.Inv, Same, Legal, Logs, R.Initial, Initial, History, SentWith, Decided, Written;
    var gs, a := InitialSame(c);
    R.InitialInv(a);
    LogsWith(p, clocks, c, gs, a, actions);
  }

  /** The clocks of the servers that commands are shipped to. */
  function Clocks(actions: seq<Action>): set<int> { set x | x in actions && x.Ship? :: x.clock }

  /**
    A run logs only decided records if every record a client sends is decided, and stays so when its
    expiry is counted by the clock of a server it is shipped to.
   */
  lemma ClientsDecide(c: System, actions: seq<Action>)
    requires Initial(c) && Legal(c, actions)
    requires forall x :: x in actions && x.ClientWrite? ==> Everywhere(Decided, x.record, Clocks(actions))
    ensures LogsDecided(c, actions)
  {
    hide Legal, Logs, Initial, Everywhere, Decided;
    LogsFromStart(Decided, Clocks(actions), c, actions);
    forall l | 0 <= l < |c.servers| ensures AllDecided(Logs(c, actions, l)) {
      assert AllLoggedWith(Decided, Clocks(actions), Logs(c, actions, l));
    }
  }

  lemma ReadableDecided(r: Record)
    requires Written(r) && Readable(r)
    ensures Decided(r)
  {
    hide Parse, Encode;
    DecidedExactly(r);
  }

  /** No reader is ever stopped or misled if all that clients send can be read, there and at the receivers. */
  lemma NeverStopped(c: System, actions: seq<Action>, i: nat, j: nat)
    requires Initial(c) && Legal(c, actions) && Peers(After(c, actions), i, j)
    requires forall x :: x in actions && x.ClientWrite? ==> Everywhere(Readable, x.record, Clocks(actions))
    ensures AllReadable(Logs(c, actions, i)) && LogsDecided(c, actions)
    ensures var v := After(c, actions).servers[i];
            var at := v.readers[j].at;
            OnFile(v.log.files, at) && BinlogRead(v.log.files, at.index, at.offset).parsed != Invalid
  {
    hide Legal, After, Logs, Readable, BinlogRead, EncodeAll, RecordLength, AsRead, Initial, Everywhere, Decided,
      Written;
    forall r | Readable(r) && Written(r) ensures Decided(r) { ReadableDecided(r); }
    LogsFromStart(Readable, Clocks(actions), c, actions);
    forall l | 0 <= l < |c.servers| ensures AllDecided(Logs(c, actions, l)) {
      assert AllLoggedWith(Readable, Clocks(actions), Logs(c, actions, l));
    }
    assert AllLoggedWith(Readable, Clocks(actions), Logs(c, actions, i));
    var n, f := ReaderNeverLost(c, actions, i, j);
  }

  predicate Lasts(r: Record) { r.expires == 0 }

  /** Where no client sets an expiry, everything logged is decided. */
  lemma LastingDecided(c: System, actions: seq<Action>)
    requires Initial(c) && Legal(c, actions) && NeverExpiring(actions)
    ensures LogsDecided(c, actions)
  {
    hide Legal, Logs, Initial, Decided, Written;
    var p := Lasts;
    forall r | p(r) && Written(r) ensures Decided(r) { LastsDecided(r); }
    forall x | x in actions ensures SentWith(p, Clocks(actions), x) {
      assert x.Ship? ==> x.clock in Clocks(actions);
    }
    LogsFromStart(p, Clocks(actions), c, actions);
    forall l | 0 <= l < |c.servers| ensures AllDecided(Logs(c, actions, l)) {
      assert AllLoggedWith(p, Clocks(actions), Logs(c, actions, l));
    }
  }

  lemma LastsDecided(r: Record)
    requires Written(r) && r.expires == 0
    ensures Decided(r)
  {
  }

  /**
    Where no client sets an expiry, readable or not, no reader ever skips anything, and a peer whose
    reader has caught up holds exactly what the owner holds of a key if and only if no failed set has
    unlinked it there.
   */
  lemma LastingConvergence(c: System, actions: seq<Action>, i: nat, j: nat)
    requires Initial(c) && Legal(c, actions) && NeverExpiring(actions) && Peers(After(c, actions), i, j)
    ensures After(c, actions).servers[i].readers[j].skipped == map[]
    ensures CaughtUp(After(c, actions), i, j) ==>
              var t := After(c, actions);
              forall k :: c.owner(k) == i ==>
                (R.SameAt(t.servers[j].store, t.servers[i].store, k) <==> k !in t.servers[i].lost)
  {
    hide R.Inv, Legal, After, R.Legal, R.After, Logs, LogsDecided, ReaderIn, BytesOf, R.Initial, CaughtUp, R.SameAt,
      Initial;
    LastingDecided(c, actions);
    var gs, a0, xs := RunFromStart(c, actions);
    var t, b := After(c, actions), R.After(a0, xs);
    ReaderOf(t, gs, b, i, j);
    assert SameServer(t.servers[j], gs[j], b.servers[j]);
    R.LastingConvergence(a0, xs, i, j);
    assert R.LastingServer(b.servers[i]);
    if CaughtUp(t, i, j) {
      CaughtUpSame(t, gs, b, i, j);
    }
  }

  // ---------- when a reader can catch up ----------

  lemma {:induction false} RunsCompose(s: System, xs: seq<Action>, ys: seq<Action>, l: nat)
    requires Legal(s, xs)
    ensures Legal(s, xs + ys) <==> Legal(After(s, xs), ys)
    ensures Legal(s, xs + ys) ==>
              && After(s, xs + ys) == After(After(s, xs), ys)
              && Logs(s, xs + ys, l) == Logs(s, xs, l) + Logs(After(s, xs), ys, l)
    decreases |xs|
  {
    hide Enabled, Do, Writes;
    if xs == [] {
      assert xs + ys == ys;
    } else {
      RunsCompose(Do(s, xs[0]), xs[1..], ys, l);
      assert (xs + ys)[1..] == xs[1..] + ys;
    }
  }

  predicate HasFiles(s: System) { forall l :: 0 <= l < |s.servers| ==> s.servers[l].log.files != [] }

  lemma FilesStep(s: System, a: Action)
    requires HasFiles(s) && Enabled(s, a)
    ensures HasFiles(Do(s, a))
  {
    hide Binlog.Write, Accepted, R.Transmit, BinlogRead, R.Logged, R.Apply, Advance, OnFile;
  }

  lemma {:induction false} FilesRun(s: System, actions: seq<Action>)
    requires HasFiles(s) && Legal(s, actions)
    ensures HasFiles(After(s, actions))
    decreases |actions|
  {
    hide Do, Enabled, HasFiles;
    if actions != [] {
      FilesStep(s, actions[0]);
      FilesRun(Do(s, actions[0]), actions[1..]);
    }
  }

  /** The receiver's clock at the time of the write leaves the expiry as it is. */
  lemma ReceivedAtOnce(r: Record)
    requires Readable(r) && Decided(r)
    ensures Decided(R.Received(R.Replica(r), r.timestamp))
  {
    ReadableDecided(R.Received(R.Replica(r), r.timestamp));
  }

  /** One record shipped and taken at the clock of its own stamp. */
  lemma ShipNext(c: System, i: nat, j: nat, g: RecordLog, n: nat, m: nat) returns (act: Action, m': nat)
    requires Peers(c, i, j) && HasFiles(c) && Tracked(c.servers[i], g)
    requires ReaderIn(g.groups, c.servers[i].readers[j], n, m)
    requires AllReadable(History(g)) && n < |Flatten(g.groups)|
    ensures Enabled(c, act) && Peers(Do(c, act), i, j) && HasFiles(Do(c, act))
    ensures Tracked(Do(c, act).servers[i], g) && ReaderIn(g.groups, Do(c, act).servers[i].readers[j], n + 1, m')
    ensures AllDecided(History(g)) ==> forall l: nat :: AllDecided(Writes(c, act, l))
  {
    hide Flatten, BinlogRead, Advance, AfterRead, ReaderIn, Receive, Readable, AsRead, R.Transmit, R.Received,
      RecordLength,
      R.Logged, Decided, BytesOf, TrackedReader;
    AllReadableFirst(g);
    var r := Flatten(g.groups)[n];
    assert r == History(g)[n];
    act := Ship(i, j, R.Done, false, 0, r.timestamp);
    var v, rd := c.servers[i], c.servers[i].readers[j];
    var sent := R.Transmit(AsRead(r), true, true, 0, 0);
    AdvanceIn(g, rd, n, m, sent.Some?, R.Done, false, 0, r.timestamp);
    m' := if BinlogRead(v.log.files, rd.at.index, rd.at.offset).index != rd.at.index then n else m;
    TrackedTurn(c, act, g);
    FilesStep(c, act);
    SameSize(c, act);
    if AllDecided(History(g)) {
      assert Decided(r) && Written(r) by { FlushedRecord(g, n); }
      WrittenProper(r);
      R.TransmitIs(r, 0);
      ReceivedAtOnce(r);
    }
  }

  lemma AllReadableFirst(g: RecordLog)
    requires AllReadable(History(g))
    ensures FirstDecided(History(g))
  {
    hide Readable, Decided;
  }

  /** Nothing waits in the buffer, and everything can be read: ship record by record. */
  lemma {:induction false} ShipRest(c: System, i: nat, j: nat, g: RecordLog, n: nat, m: nat) returns (more: seq<Action>)
    requires Peers(c, i, j) && HasFiles(c) && Tracked(c.servers[i], g)
    requires ReaderIn(g.groups, c.servers[i].readers[j], n, m)
    requires AllReadable(History(g)) && g.pending == []
    ensures Legal(c, more) && CaughtUp(After(c, more), i, j)
    ensures AllDecided(History(g)) ==> forall l: nat :: AllDecided(Logs(c, more, l))
    decreases |Flatten(g.groups)| - n
  {
    hide Flatten, BinlogRead, ReaderIn, Do, Enabled, Readable, AsRead, RecordLength, Tracked, HasFiles, FirstDecided,
      Writes,
      Decided, History;
    if n < |Flatten(g.groups)| {
      var act, m' := ShipNext(c, i, j, g, n, m);
      var rest := ShipRest(Do(c, act), i, j, g, n + 1, m');
      more := [act] + rest;
      assert more[1..] == rest;
    } else {
      more := [];
      AtTheEnd(c.servers[i], g, c.servers[i].readers[j], n, m);
    }
  }

  lemma AtTheEnd(v: Server, g: RecordLog, rd: Reader, n: nat, m: nat)
    requires Tracked(v, g) && ReaderIn(g.groups, rd, n, m) && AllReadable(History(g)) && g.pending == []
    requires n >= |Flatten(g.groups)|
    ensures v.log.buffer == [] && OnFile(v.log.files, rd.at)
    ensures BinlogRead(v.log.files, rd.at.index, rd.at.offset).parsed == NoEntry
  {
    hide Flatten, BinlogRead, Readable, AsRead, RecordLength, TrackedReader, FirstDecided, Behind, OnFile;
    AllReadableFirst(g);
    ReadSame(g, rd.at, n);
  }

  /** If everything logged so far can be read, the reader can catch up: flush, then ship the rest. */
  lemma CanCatchUp(c: System, actions: seq<Action>, i: nat, j: nat) returns (more: seq<Action>)
    requires Initial(c) && Legal(c, actions) && Peers(After(c, actions), i, j)
    requires AllReadable(Logs(c, actions, i))
    ensures Legal(c, actions + more) && CaughtUp(After(c, actions + more), i, j)
    ensures LogsDecided(c, actions) ==> LogsDecided(c, actions + more)
  {
    hide Legal, After, Logs, Do, Readable, CaughtUp, HasFiles, Initial, ReaderIn, FirstDecided, Decided, Tracked;
    SameSizeRun(c, actions);
    ReadableFirst(Logs(c, actions, i));
    var g := LogFromStart(c, actions, i);
    var t, b := After(c, actions), FlushLog(i);
    assert HasFiles(c) by { InitialFiles(c); }
    FilesRun(c, actions);
    var h := TrackedFlush(t.servers[i], g);
    FlushNow(t, i, j);
    var n, m := ReaderOfLog(Do(t, b).servers[i], h, j);
    var rest := ShipRest(Do(t, b), i, j, h, n, m);
    more := [b] + rest;
    OneMore(t, b, rest);
    RunsCompose(c, actions, more, i);
    if LogsDecided(c, actions) {
      forall l | 0 <= l < |c.servers| ensures AllDecided(Logs(c, actions + more, l)) {
        RunsCompose(c, actions, more, l);
        OneMoreLog(t, b, rest, l);
        assert AllDecided(Logs(c, actions, l)) && AllDecided(Logs(Do(t, b), rest, l));
      }
    }
  }

  lemma ReadableFirst(h: seq<Record>)
    requires AllReadable(h)
    ensures FirstDecided(h)
  {
    hide Readable, Decided;
  }

  lemma InitialFiles(c: System)
    requires Initial(c)
    ensures HasFiles(c)
  {
  }

  lemma FlushNow(t: System, i: nat, j: nat)
    requires HasFiles(t) && Peers(t, i, j)
    ensures Enabled(t, FlushLog(i)) && Peers(Do(t, FlushLog(i)), i, j) && HasFiles(Do(t, FlushLog(i)))
    ensures Do(t, FlushLog(i)).servers[i] == t.servers[i].(log := Flush(t.servers[i].log))
  {
  }

  lemma OneMore(s: System, a: Action, rest: seq<Action>)
    requires Enabled(s, a) && Legal(Do(s, a), rest)
    ensures Legal(s, [a] + rest) && After(s, [a] + rest) == After(Do(s, a), rest)
  {
    hide Enabled, Do;
    assert ([a] + rest)[1..] == rest;
  }

  lemma OneMoreLog(s: System, a: Action, rest: seq<Action>, l: nat)
    requires Enabled(s, a) && Legal(Do(s, a), rest)
    ensures Legal(s, [a] + rest) && Logs(s, [a] + rest, l) == Writes(s, a, l) + Logs(Do(s, a), rest, l)
  {
    hide Enabled, Do, Writes;
    assert ([a] + rest)[1..] == rest;
  }

  /** Nothing that follows changes what the first unreadable record does. */
  lemma FirstStays(h: seq<Record>, more: seq<Record>)
    requires FirstDecided(h) && !AllReadable(h)
    ensures FirstDecided(h + more) && !AllReadable(h + more)
  {
    hide Decided, Readable;
    var m :| 0 <= m < |h| && !Readable(h[m]);
    assert (h + more)[m] == h[m];
    forall n | m < n <= |h + more| ensures !AllReadable((h + more)[..n]) { assert (h + more)[..n][m] == h[m]; }
    forall n | 0 <= n < |h + more| && AllReadable((h + more)[..n]) && !Readable((h + more)[n])
      ensures Decided((h + more)[n])
    {
      assert (h + more)[..n] == h[..n] && (h + more)[n] == h[n];
    }
  }

  /**
    Whatever has happened so far, the run can be continued so that the reader from i to j catches up if
    and only if every record i has logged can be read - as long as the first that cannot is decided,
    and whatever records are sent afterwards.
   */
  lemma CatchUpExactly(c: System, actions: seq<Action>, i: nat, j: nat)
    requires Initial(c) && Legal(c, actions) && Peers(After(c, actions), i, j)
    requires FirstDecided(Logs(c, actions, i))
    ensures (exists more :: Legal(c, actions + more) && CaughtUp(After(c, actions + more), i, j))
       <==> AllReadable(Logs(c, actions, i))
  {
    hide Legal, After, Logs, CaughtUp, AllReadable, FirstDecided, Initial;
    if AllReadable(Logs(c, actions, i)) {
      var more := CanCatchUp(c, actions, i, j);
    } else {
      forall more | Legal(c, actions + more)
        ensures !CaughtUp(After(c, actions + more), i, j)
      {
        RunsCompose(c, actions, more, i);
        FirstStays(Logs(c, actions, i), Logs(After(c, actions), more, i));
        if CaughtUp(After(c, actions + more), i, j) {
          CaughtUpReads(c, actions + more, i, j);
        }
      }
    }
  }

  lemma CaughtUpReads(c: System, actions: seq<Action>, i: nat, j: nat)
    requires Initial(c) && Legal(c, actions) && CaughtUp(After(c, actions), i, j)
    requires FirstDecided(Logs(c, actions, i))
    ensures AllReadable(Logs(c, actions, i))
  {
    hide Legal, After, Logs, AllReadable, FirstDecided, Initial, Tracked, ReaderIn, BytesOf, History, BinlogRead,
      OnFile;
    SameSizeRun(c, actions);
    var g := LogFromStart(c, actions, i);
    var v := After(c, actions).servers[i];
    var n, m := ReaderOfLog(v, g, j);
    CaughtUpReader(v, g, v.readers[j], n, m);
  }

  // ---------- one accepted record that cannot be read ----------

  /** A log with one record in it, flushed: that record is the text of the first file. */
  lemma OneLogged(r: Record)
    ensures var log := Flush(Write(Log([[]], []), r));
            && log.buffer == [] && log.files != [] && OnFile(log.files, Position(0, 0))
            && BinlogRead(log.files, 0, 0).parsed == Parse(Encode(r) + [])
  {
    hide Parse, Encode, RecordLength;
    ReadOne(r, []);
    var text := Encode(r);
    assert [] + text == text && text + [] == text && text[0..] == text;
    assert [[]][..0] + [[] + text] == [text];
  }

  /** One client write and one flush at the first server. */
  lemma WriteAndFlush(c: System, r: Record, j: nat)
    requires Initial(c) && 0 < j < |c.servers| && c.owner(R.KeyOf(r)) == 0 && Accepted(r) && IsSet(r)
    ensures var actions := [ClientWrite(0, r), FlushLog(0)];
            && Legal(c, actions) && Logs(c, actions, 0) == [r]
            && var t := After(c, actions);
            && Peers(t, 0, j) && t.servers[0].readers[j].at == Position(0, 0)
            && t.servers[0].log == Flush(Write(Log([[]], []), r))
            && R.KeyOf(r) in t.servers[0].store && t.servers[j].store == map[]
  {
    hide R.KeyOf, Accepted, Flush, Binlog.Write, R.StoredValue;
    var a, b := ClientWrite(0, r), FlushLog(0);
    var actions := [a, b];
    var s1 := Do(c, a);
    var s2 := Do(s1, b);
    assert actions[1..] == [b] && [b][1..] == [];
    assert Legal(s2, []) && Legal(s1, [b]);
    assert After(s2, []) == s2 && After(s1, [b]) == s2 && After(c, actions) == s2;
    assert Logs(s2, [], 0) == [] && Logs(s1, [b], 0) == [] && Logs(c, actions, 0) == [r];
  }

  /**
    One set that is accepted, decided and not readable - an empty key, say - and one flush: every reader
    of the log gets EINVAL, and none catches up in any continuation of the run.
   */
  lemma UnreadableStops(c: System, r: Record, j: nat)
    requires Initial(c) && 0 < j < |c.servers| && c.owner(R.KeyOf(r)) == 0
    requires Accepted(r) && IsSet(r) && Decided(r) && !Readable(r)
    ensures var actions := [ClientWrite(0, r), FlushLog(0)];
            && Legal(c, actions) && Logs(c, actions, 0) == [r]
            && var t := After(c, actions);
            && Peers(t, 0, j) && OnFile(t.servers[0].log.files, Position(0, 0))
            && BinlogRead(t.servers[0].log.files, 0, 0).parsed == Invalid
            && forall more :: Legal(c, actions + more) ==> !CaughtUp(After(c, actions + more), 0, j)
  {
    hide R.KeyOf, Parse, Encode, CaughtUp, Readable, Legal, After, Logs, Binlog.Write, Flush, Initial, BinlogRead,
      Decided,
      Accepted;
    var actions := [ClientWrite(0, r), FlushLog(0)];
    WriteAndFlush(c, r, j);
    OneLogged(r);
    ReadOne(r, []);
    assert !AllReadable([r]) by { assert !Readable([r][0]); }
    assert FirstDecided([r]);
    CatchUpExactly(c, actions, 0, j);
  }

  lemma EmptyKey(r: Record)
    requires Accepted(r) && IsSet(r) && r.info.key == []
    ensures !Readable(r) && (r.expires == 0 || Excess(r) == 0 ==> Decided(r))
  {
  }

  /**
    One set that is accepted and undecided, and one flush: if the shift does not lead past the record,
    the reader returns one that was never logged; otherwise it finds nothing and has caught up although
    the peer lacks the key.
   */
  lemma UndecidedMisleads(c: System, r: Record, j: nat)
    requires Initial(c) && 0 < j < |c.servers| && c.owner(R.KeyOf(r)) == 0 && Accepted(r) && !Decided(r)
    ensures var actions := [ClientWrite(0, r), FlushLog(0)];
            && Legal(c, actions) && Logs(c, actions, 0) == [r]
            && var t := After(c, actions);
            && Peers(t, 0, j) && t.servers[0].readers[j].at == Position(0, 0) && t.servers[0].log.buffer == []
            && OnFile(t.servers[0].log.files, Position(0, 0))
            && var p := BinlogRead(t.servers[0].log.files, 0, 0).parsed;
               if Shift(r) <= |r.value| + 1 then p.Complete? && p.record != AsRead(r)
               else CaughtUp(t, 0, j) && R.KeyOf(r) in t.servers[0].store && R.KeyOf(r) !in t.servers[j].store
  {
    hide R.KeyOf, Parse, Encode, Readable, Legal, After, Logs, Binlog.Write, Flush, Initial, BinlogRead, AsRead, OnFile;
    assert IsSet(r) by { UndecidedIsSet(r); }
    hide Accepted, Decided;
    WriteAndFlush(c, r, j);
    OneLogged(r);
    assert Written(r) by { AcceptedWritten(r); }
    UndecidedAtEnd(r);
  }

  lemma UndecidedAtEnd(r: Record)
    requires Written(r) && !Decided(r)
    ensures var p := Parse(Encode(r) + []);
            if Shift(r) <= |r.value| + 1 then p.Complete? && p.record != AsRead(r) else p == NoEntry
  {
    hide Parse, Encode, AsRead;
    MisreadExactly(r);
    DecidedExactly(r);
  }

  lemma AcceptedWritten(r: Record)
    requires Accepted(r)
    ensures Written(r) && CRecord(r)
  {
  }

  lemma UndecidedIsSet(r: Record)
    requires Accepted(r) && !Decided(r)
    ensures IsSet(r)
  {
  }

  /**
    Such a record: a value of seven bytes with the largest expiry, stamped one second before the clock of
    the server it is sent to. There the expiry becomes the least 32-bit number, and the reader returns
    another record than the one that was logged.
   */
  lemma MisreadRecord(ns: Byte, objId: Byte, key: Byte, value: seq<Byte>, timestamp: int) returns (sent: Record)
    requires |value| == 7 && 0 < timestamp < INT32_MAX && [key] != LIST_KEY
    ensures sent.op == SOURCE_SET && sent.expires == INT32_MAX && sent.info == KeyInfo([ns], [objId], [key])
    ensures sent.value == value && sent.timestamp == timestamp
    ensures var r := R.Received(sent, timestamp + 1).(timestamp := timestamp + 1);
            r.expires == INT32_MIN && Accepted(r) && !Decided(r)
            && Parse(Encode(r) + []).Complete? && Parse(Encode(r) + []).record != AsRead(r)
  {
    hide Parse, Encode;
    sent := Record(timestamp, SOURCE_SET, 0, INT32_MAX, KeyInfo([ns], [objId], [key]), value);
    var r := R.Received(sent, timestamp + 1).(timestamp := timestamp + 1);
    assert r.expires == INT32_MIN;
    assert Shift(r) == 8;
    MisreadExactly(r);
  }
}
