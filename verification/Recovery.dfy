/**
  Crash recovery of the page-cached store: changes reach memory and the log first, pages reach
  disk at any time, a trickle flush writes a mark, and after a crash the log is replayed from
  that mark onto whatever the disk holds.
 */
module Recovery {
  import opened Bytes
  import opened RecordCodec
  import opened Binlog
  import opened BinlogFiles
  import opened Replication

  // ---------- replay ----------

  /** `recover_cmd_set` and `recover_cmd_del`, one record after the other. */
  function ReplayOnto(st: Store, rs: seq<Record>): (r: Store)
    decreases |rs|
  {
    if rs == [] then st else Apply(ReplayOnto(st, rs[..|rs| - 1]), rs[|rs| - 1])
  }

  predicate Touches(rs: seq<Record>, k: FullKey) {
    exists n :: 0 <= n < |rs| && KeyOf(rs[n]) == k
  }

  /** The read that ends a replay. */
  function LastRead(files: seq<seq<Byte>>, index: nat, offset: nat): (p: Parsed)
    requires index < |files| && offset <= |files[index]|
    ensures !p.Complete?
    decreases |files| - index, |files[index]| - offset
  {
    var r := BinlogRead(files, index, offset);
    if r.parsed.Complete? then LastRead(files, r.index, r.offset + r.parsed.length) else r.parsed
  }

  /**
    `fdht_recover_data` with a store whose writes succeed: read from the mark until a read yields
    no record. A delete that finds no key is counted and skipped.
   */
  method RecoverData(log: BinlogWriter, mark: Position, disk: Store) returns (store: Store, last: Parsed)
    requires log.Valid() && OnFile(log.files, mark)
    ensures store == ReplayOnto(disk, Drain(log.files, mark.index, mark.offset))
    ensures last == LastRead(log.files, mark.index, mark.offset)
  {
    hide Apply, Replaying, ReplayOnto, Drain, LastRead, Parse, BinlogRead;
    ghost var files := log.files;
    var reader := new BinlogReader(mark);
    store := disk;
    ghost var done: seq<Record> := [];
    ReplayNothing(disk);
    ReplayingStart(files, mark);
    last := reader.Read(log);
    while last.Complete?
      invariant log.Valid() && log.files == files && reader.On(files)
      invariant store == ReplayOnto(disk, done)
      invariant Replaying(files, mark, done, last, Position(reader.index, reader.pos))
      decreases |files| - reader.index, |files[reader.index]| - reader.pos, if last.Complete? then 1 else 0
    {
      store := ApplyRecord(store, last.record);
      ReplayOntoStep(disk, done, last.record);
      ReplayingStep(files, mark, done, last, Position(reader.index, reader.pos));
      done := done + [last.record];
      last := reader.Read(log);
    }
    ReplayingEnd(files, mark, done, last, Position(reader.index, reader.pos));
  }

  lemma ReplayNothing(st: Store)
    ensures ReplayOnto(st, []) == st
  {
  }

  /** What a replay from the mark has returned before `last`, and what is still to come. */
  ghost predicate Replaying(files: seq<seq<Byte>>, mark: Position, done: seq<Record>, last: Parsed, at: Position)
    requires OnFile(files, mark) && OnFile(files, at)
  {
    && Drain(files, mark.index, mark.offset)
       == done + (if last.Complete? then [last.record] + Drain(files, at.index, at.offset) else [])
    && LastRead(files, mark.index, mark.offset)
       == if last.Complete? then LastRead(files, at.index, at.offset) else last
  }

  lemma ReplayingStart(files: seq<seq<Byte>>, mark: Position)
    requires OnFile(files, mark)
    ensures var r := BinlogRead(files, mark.index, mark.offset);
            Replaying(files, mark, [], r.parsed,
                      Position(r.index, r.offset + if r.parsed.Complete? then r.parsed.length else 0))
  {
    hide BinlogRead, Parse;
    DrainStep(files, mark.index, mark.offset);
    assert [] + Drain(files, mark.index, mark.offset) == Drain(files, mark.index, mark.offset);
  }

  lemma ReplayingStep(files: seq<seq<Byte>>, mark: Position, done: seq<Record>, last: Parsed, at: Position)
    requires OnFile(files, mark) && OnFile(files, at) && last.Complete? && Replaying(files, mark, done, last, at)
    ensures var r := BinlogRead(files, at.index, at.offset);
            Replaying(files, mark, done + [last.record], r.parsed,
                      Position(r.index, r.offset + if r.parsed.Complete? then r.parsed.length else 0))
  {
    hide BinlogRead, Parse, Drain, LastRead;
    DrainStep(files, at.index, at.offset);
    assert done + ([last.record] + Drain(files, at.index, at.offset))
        == done + [last.record] + Drain(files, at.index, at.offset);
  }

  lemma ReplayingEnd(files: seq<seq<Byte>>, mark: Position, done: seq<Record>, last: Parsed, at: Position)
    requires OnFile(files, mark) && OnFile(files, at) && !last.Complete? && Replaying(files, mark, done, last, at)
    ensures done == Drain(files, mark.index, mark.offset) && last == LastRead(files, mark.index, mark.offset)
  {
    assert done + [] == done;
  }

  lemma DrainStep(files: seq<seq<Byte>>, index: nat, pos: nat)
    requires index < |files| && pos <= |files[index]|
    ensures var r := BinlogRead(files, index, pos);
            Drain(files, index, pos)
            == if r.parsed.Complete? then [r.parsed.record] + Drain(files, r.index, r.offset + r.parsed.length) else []
    ensures var r := BinlogRead(files, index, pos);
            LastRead(files, index, pos)
            == if r.parsed.Complete? then LastRead(files, r.index, r.offset + r.parsed.length) else r.parsed
  {
    hide BinlogRead, Parse;
  }

  lemma ReplayOntoStep(st: Store, rs: seq<Record>, r: Record)
    ensures ReplayOnto(st, rs + [r]) == Apply(ReplayOnto(st, rs), r)
  {
  }

  method ApplyRecord(store: Store, r: Record) returns (s: Store)
    ensures s == Apply(store, r)
  {
    s := store;
    if IsSet(r) {
      s := store[KeyOf(r) := StoredValue(r)];
    } else if KeyOf(r) in store {
      s := store - {KeyOf(r)};
    }
  }

  /** `fdht_db_recovery_init`: nothing to replay when the mark is at the end of the log. */
  method RecoveryInit(log: BinlogWriter, mark: Position, disk: Store) returns (store: Store, result: int)
    requires log.Valid() && OnFile(log.files, mark)
    ensures store == ReplayOnto(disk, Drain(log.files, mark.index, mark.offset))
    ensures result == if LastRead(log.files, mark.index, mark.offset) == NoEntry then 0 else EINVAL
  {
    hide Drain, Apply, LastRead;
    NothingAtEnd(log.files);
    if mark.index < log.index || mark.offset < log.fileSize {
      var last;
      store, last := RecoverData(log, mark, disk);
      result := if last.NoEntry? then 0 else EINVAL;
    } else {
      store, result := disk, 0;
    }
  }

  lemma NothingAtEnd(files: seq<seq<Byte>>)
    requires files != []
    ensures Drain(files, |files| - 1, |files[|files| - 1]|) == []
    ensures LastRead(files, |files| - 1, |files[|files| - 1]|) == NoEntry
  {
  }

  // ---------- the store before a crash ----------

  /** A trickle flush under way: the log position captured before it, and the pages still dirty. */
  datatype Trickle = Idle | Running(at: Position, count: nat, dirty: set<FullKey>)

  /** `marked` and `count` are bookkeeping: how many records lie before a position. */
  datatype Db = Db(mem: Store, disk: Store, log: RecordLog, mark: Position, marked: nat, trickle: Trickle)

  datatype Step =
    | Write(record: Record)
    | FlushLog
    | PageOut(key: FullKey)
    | TrickleBegin
    | TrickleEnd(writesMark: bool)

  predicate Enabled(d: Db, s: Step) {
    match s
    case Write(r) => Written(r) && Logged(d.mem, r)
    case FlushLog => true
    case PageOut(_) => true
    case TrickleBegin => d.trickle.Idle?
    case TrickleEnd(_) => d.trickle.Running? && d.trickle.dirty == {}
  }

  function CopyKey(st: Store, src: Store, k: FullKey): Store {
    if k in src then st[k := src[k]] else st - {k}
  }

  function Dirty(d: Db): set<FullKey> {
    set k | k in d.mem.Keys + d.disk.Keys && !SameAt(d.mem, d.disk, k)
  }

  function EndOfLog(g: RecordLog): Position
    requires g.groups != []
  {
    Position(|g.groups| - 1, |EncodeAll(g.groups[|g.groups| - 1])|)
  }

  function Do(d: Db, s: Step): (e: Db)
    requires d.log.groups != [] && Enabled(d, s)
    ensures e.log.groups != []
  {
    match s
    case Write(r) => d.(mem := Apply(d.mem, r), log := WriteRecord(d.log, r))
    case FlushLog => d.(log := FlushRecords(d.log))
    case PageOut(k) =>
      d.(disk := CopyKey(d.disk, d.mem, k),
         trickle := if d.trickle.Running? then d.trickle.(dirty := d.trickle.dirty - {k}) else Idle)
    case TrickleBegin => d.(trickle := Running(EndOfLog(d.log), |Flatten(d.log.groups)|, Dirty(d)))
    case TrickleEnd(writesMark) =>
      if writesMark then d.(mark := d.trickle.at, marked := d.trickle.count, trickle := Idle)
      else d.(trickle := Idle)
  }

  /** The disk holds, for key k, the value after at least the first m records. */
  ghost predicate OnDisk(d: Db, m: nat, k: FullKey) {
    exists t :: m <= t <= |History(d.log)| && SameAt(d.disk, Replay(History(d.log)[..t]), k)
  }

  ghost predicate Inv(d: Db) {
    && d.log.groups != [] && AllTyped(History(d.log))
    && d.mem == Replay(History(d.log))
    && Behind(d.log.groups, d.mark, d.marked) && d.marked <= |Flatten(d.log.groups)|
    && (forall k :: OnDisk(d, d.marked, k))
    && (d.trickle.Running? ==>
          && Behind(d.log.groups, d.trickle.at, d.trickle.count)
          && d.trickle.count <= |Flatten(d.log.groups)|
          && (forall k :: k !in d.trickle.dirty ==> OnDisk(d, d.trickle.count, k)))
  }

  lemma EndIsBehindAll(g: RecordLog)
    requires g.groups != []
    ensures Behind(g.groups, EndOfLog(g), |Flatten(g.groups)|)
  {
    hide EncodeAll;
    var n := |g.groups| - 1;
    FlattenSplit(g.groups, n);
    assert g.groups[n][..|g.groups[n]|] == g.groups[n];
    assert At(g.groups, n, EndOfLog(g).offset, |g.groups[n]|);
  }

  /** A longer history explains the disk as well as the shorter one did. */
  lemma OnDiskGrows(d: Db, e: Db, m: nat, k: FullKey)
    requires OnDisk(d, m, k) && e.disk == d.disk && History(d.log) <= History(e.log)
    ensures OnDisk(e, m, k)
  {
    hide Replay, SameAt;
    var t :| m <= t <= |History(d.log)| && SameAt(d.disk, Replay(History(d.log)[..t]), k);
    assert History(e.log)[..t] == History(d.log)[..t];
  }

  lemma LogGrowsKeeps(d: Db, g: RecordLog)
    requires Inv(d) && g.groups != [] && AllTyped(History(g)) && Grows(d.log, g) && History(d.log) <= History(g)
    ensures Inv(d.(log := g, mem := Replay(History(g))))
  {
    hide Replay, Behind, Flatten, OnDisk;
    var e := d.(log := g, mem := Replay(History(g)));
    forall k ensures OnDisk(e, d.marked, k) {
      OnDiskGrows(d, e, d.marked, k);
    }
    if d.trickle.Running? {
      forall k | k !in d.trickle.dirty ensures OnDisk(e, d.trickle.count, k) {
        OnDiskGrows(d, e, d.trickle.count, k);
      }
    }
  }

  lemma PageOutKeeps(d: Db, k: FullKey)
    requires Inv(d)
    ensures Inv(Do(d, PageOut(k)))
  {
    hide Replay, Behind, Flatten;
    var e := Do(d, PageOut(k));
    var h := History(d.log);
    assert h[..|h|] == h;
    forall m: nat, k' | m <= |h| && (k' == k || OnDisk(d, m, k'))
      ensures OnDisk(e, m, k')
    {
      if k' == k {
        assert SameAt(e.disk, Replay(h[..|h|]), k);
      } else {
        var t :| m <= t <= |h| && SameAt(d.disk, Replay(h[..t]), k');
        assert SameAt(e.disk, Replay(h[..t]), k');
      }
    }
  }

  lemma TrickleBeginKeeps(d: Db)
    requires Inv(d) && Enabled(d, TrickleBegin)
    ensures Inv(Do(d, TrickleBegin))
  {
    hide Replay, Behind, Flatten;
    var e := Do(d, TrickleBegin);
    var h := History(d.log);
    EndIsBehindAll(d.log);
    assert h[..|h|] == h;
    forall k | k !in e.trickle.dirty
      ensures OnDisk(e, e.trickle.count, k)
    {
      assert SameAt(e.disk, Replay(h[..|h|]), k);
    }
    forall k ensures OnDisk(e, e.marked, k) {
      assert OnDisk(d, d.marked, k);
    }
  }

  lemma TrickleEndKeeps(d: Db, writesMark: bool)
    requires Inv(d) && Enabled(d, TrickleEnd(writesMark))
    ensures Inv(Do(d, TrickleEnd(writesMark)))
  {
    hide Replay, Behind, Flatten;
    var e := Do(d, TrickleEnd(writesMark));
    forall k ensures OnDisk(e, e.marked, k) {
      assert OnDisk(d, d.marked, k) && OnDisk(d, d.trickle.count, k);
    }
  }

  lemma StepKeeps(d: Db, s: Step)
    requires Inv(d) && Enabled(d, s)
    ensures Inv(Do(d, s))
  {
    hide Replay, Behind, Flatten, OnDisk, WriteRecord, FlushRecords;
    match s
    case Write(r) =>
      WriteCommutes(d.log, r);
      WriteGrows(d.log, r);
      LogGrowsKeeps(d, WriteRecord(d.log, r));
      ReplayAppend(History(d.log), r);
    case FlushLog =>
      FlushCommutes(d.log);
      FlushGrows(d.log);
      LogGrowsKeeps(d, FlushRecords(d.log));
    case PageOut(k) => PageOutKeeps(d, k);
    case TrickleBegin => TrickleBeginKeeps(d);
    case TrickleEnd(writesMark) => TrickleEndKeeps(d, writesMark);
  }

  lemma ReplayAppend(h: seq<Record>, r: Record)
    ensures Replay(h + [r]) == Apply(Replay(h), r)
  {
  }

  // ---------- the crash ----------

  /** What recovery computes: memory and the log buffer are gone, disk and log files are not. */
  function Recover(d: Db): Store
    requires OnFile(BytesOf(d.log).files, d.mark)
  {
    ReplayOnto(d.disk, Drain(BytesOf(d.log).files, d.mark.index, d.mark.offset))
  }

  /** Records that do not touch a key do not change it; those that do leave their own value. */
  lemma {:induction false} ReplayOntoKey(st: Store, other: Store, rs: seq<Record>, k: FullKey)
    ensures !Touches(rs, k) ==> SameAt(ReplayOnto(st, rs), st, k)
    ensures Touches(rs, k) ==> SameAt(ReplayOnto(st, rs), ReplayOnto(other, rs), k)
    decreases |rs|
  {
    if rs != [] {
      var front, r := rs[..|rs| - 1], rs[|rs| - 1];
      ReplayOntoKey(st, other, front, k);
      if KeyOf(r) != k {
        TouchesFront(rs, k);
      } else {
        assert Touches(rs, k);
      }
    }
  }

  lemma TouchesFront(rs: seq<Record>, k: FullKey)
    requires rs != [] && KeyOf(rs[|rs| - 1]) != k
    ensures Touches(rs, k) <==> Touches(rs[..|rs| - 1], k)
  {
  }

  lemma {:induction false} ReplaySplit(h: seq<Record>, n: nat)
    requires n <= |h|
    ensures Replay(h) == ReplayOnto(Replay(h[..n]), h[n..])
    decreases |h|
  {
    hide Apply;
    if n == |h| {
      assert h[..n] == h;
    } else {
      var front := h[..|h| - 1];
      ReplaySplit(front, n);
      assert h[n..][..|h| - n - 1] == front[n..] && front[..n] == h[..n];
    }
  }

  /** A negative expiry read back as a large one is stored as the same four bytes. */
  lemma {:induction false} ReplayAsRead(st: Store, rs: seq<Record>)
    ensures ReplayOnto(st, AsReadAll(rs)) == ReplayOnto(st, rs)
    decreases |rs|
  {
    hide Apply, AsRead;
    if rs != [] {
      var n := |rs| - 1;
      ReplayAsRead(st, rs[..n]);
      assert AsReadAll(rs)[..n] == AsReadAll(rs[..n]);
      ApplyAsRead(ReplayOnto(st, rs[..n]), rs[n]);
    }
  }

  lemma ApplyAsRead(st: Store, r: Record)
    ensures Apply(st, AsRead(r)) == Apply(st, r)
  {
    assert PutInt(LowHalf(r.expires)) == PutInt(r.expires) by { SameLowHalf(r.expires); }
    hide PutInt, LowHalf, Pack;
  }

  lemma SameLowHalf(n: int)
    ensures PutInt(LowHalf(n)) == PutInt(n)
  {
    assert LowHalf(n) % 0x1_0000_0000 == n % 0x1_0000_0000;
  }

  /** As far as the replay gets: to the first record it cannot read. */
  ghost function Reach(d: Db): (m: nat)
    requires d.marked <= |Flatten(d.log.groups)|
    ensures d.marked <= m <= |Flatten(d.log.groups)|
  {
    FirstBad(Flatten(d.log.groups), d.marked)
  }

  /** The record it cannot read, if there is one, stops it whatever follows. */
  ghost predicate ReachDecided(d: Db)
    requires d.marked <= |Flatten(d.log.groups)|
  {
    Reach(d) == |Flatten(d.log.groups)| || Decided(Flatten(d.log.groups)[Reach(d)])
  }

  lemma RecoveredIs(d: Db)
    requires Inv(d) && ReachDecided(d)
    ensures OnFile(BytesOf(d.log).files, d.mark)
    ensures Recover(d) == ReplayOnto(d.disk, Flatten(d.log.groups)[d.marked..Reach(d)])
  {
    hide Drain, Flatten, EncodeAll, Apply, Replay, Decided, Readable, AsRead;
    var flushed := Flatten(d.log.groups);
    var k :| At(d.log.groups, d.mark.index, d.mark.offset, k) && Count(d.log.groups, d.mark.index, k) == d.marked;
    FlushedTyped(d.log);
    DrainAll(d.log, d.mark.index, d.mark.offset, k);
    ReplayAsRead(d.disk, flushed[d.marked..Reach(d)]);
  }

  lemma FlushedTyped(g: RecordLog)
    requires AllTyped(History(g))
    ensures AllTyped(Flatten(g.groups))
  {
    hide CRecord, Flatten;
    var flushed := Flatten(g.groups);
    forall i | 0 <= i < |flushed| ensures CRecord(flushed[i]) {
      assert flushed[i] == History(g)[i];
    }
  }

  /** The replay ends well if and only if it can read all that was flushed behind the mark. */
  lemma RecoveryEnds(d: Db)
    requires Inv(d) && ReachDecided(d)
    ensures OnFile(BytesOf(d.log).files, d.mark)
    ensures LastRead(BytesOf(d.log).files, d.mark.index, d.mark.offset) == NoEntry
       <==> AllReadable(Flatten(d.log.groups)[d.marked..])
  {
    hide Flatten, EncodeAll, Replay, Decided, Readable, AsRead, LastRead;
    var k :| At(d.log.groups, d.mark.index, d.mark.offset, k) && Count(d.log.groups, d.mark.index, k) == d.marked;
    LastReadIs(d.log, d.mark.index, d.mark.offset, k);
    NoneBad(Flatten(d.log.groups), d.marked);
  }

  lemma {:induction false} NoneBad(rs: seq<Record>, n: nat)
    requires n <= |rs|
    ensures AllReadable(rs[n..]) <==> FirstBad(rs, n) == |rs|
    decreases |rs| - n
  {
    hide Readable;
    if n < |rs| {
      NoneBad(rs, n + 1);
      assert rs[n..] == [rs[n]] + rs[n + 1..];
    }
  }

  lemma {:induction false} LastReadIs(g: RecordLog, index: nat, offset: nat, k: nat)
    requires At(g.groups, index, offset, k) && Count(g.groups, index, k) <= |Flatten(g.groups)|
    requires var m := FirstBad(Flatten(g.groups), Count(g.groups, index, k));
             m == |Flatten(g.groups)| || Decided(Flatten(g.groups)[m])
    ensures offset <= |BytesOf(g).files[index]|
    ensures LastRead(BytesOf(g).files, index, offset)
         == if FirstBad(Flatten(g.groups), Count(g.groups, index, k)) == |Flatten(g.groups)| then NoEntry else Invalid
    decreases |Flatten(g.groups)| - Count(g.groups, index, k)
  {
    hide Parse, EncodeAll, Flatten, BinlogRead, RecordLength, Readable, Decided, CRecord, AsRead;
    var k' := ReadAt(g, index, offset, k);
    var r := BinlogRead(BytesOf(g).files, index, offset);
    var n, flushed := Count(g.groups, index, k), Flatten(g.groups);
    if n < |flushed| && Readable(flushed[n]) {
      assert Count(g.groups, r.index, k' + 1) == n + 1;
      LastReadIs(g, r.index, r.offset + r.parsed.length, k' + 1);
    }
  }

  /** Exactly when the replay gives key k the value the log gives it, as far as it can be read. */
  lemma RecoveryExactly(d: Db, k: FullKey)
    requires Inv(d) && ReachDecided(d)
    ensures OnFile(BytesOf(d.log).files, d.mark)
    ensures var read := Flatten(d.log.groups)[..Reach(d)];
            SameAt(Recover(d), Replay(read), k)
            <==> Touches(read[d.marked..], k) || SameAt(d.disk, Replay(read), k)
  {
    hide Flatten, Replay, ReplayOnto, Touches, EncodeAll, Recover;
    RecoveredIs(d);
    var read := Flatten(d.log.groups)[..Reach(d)];
    assert read[d.marked..] == Flatten(d.log.groups)[d.marked..Reach(d)];
    ReplaySplit(read, d.marked);
    ReplayOntoKey(d.disk, Replay(read[..d.marked]), read[d.marked..], k);
  }

  /** A prefix of a history and the whole agree on keys the rest does not touch. */
  lemma UntouchedTail(h: seq<Record>, n: nat, k: FullKey)
    requires n <= |h| && !Touches(h[n..], k)
    ensures SameAt(Replay(h), Replay(h[..n]), k)
  {
    ReplaySplit(h, n);
    ReplayOntoKey(Replay(h[..n]), map[], h[n..], k);
  }

  lemma UntouchedSuffix(h: seq<Record>, n: nat, t: nat, k: FullKey)
    requires n <= t <= |h| && !Touches(h[n..], k)
    ensures !Touches(h[n..t], k) && !Touches(h[t..], k)
  {
  }

  /** Without later flushed records of k, the disk has the value of a history no shorter than the flushed log. */
  lemma DiskMatches(d: Db, k: FullKey) returns (q: nat)
    requires Inv(d) && !Touches(Flatten(d.log.groups)[d.marked..], k)
    ensures |Flatten(d.log.groups)| <= q <= |History(d.log)|
    ensures SameAt(d.disk, Replay(History(d.log)[..q]), k)
  {
    hide Flatten, Replay, Touches, Behind;
    var h, flushed := History(d.log), Flatten(d.log.groups);
    assert OnDisk(d, d.marked, k);
    var t :| d.marked <= t <= |h| && SameAt(d.disk, Replay(h[..t]), k);
    q := t;
    if t < |flushed| {
      q := |flushed|;
      assert h[..t] == flushed[..t] && h[..q] == flushed;
      UntouchedSuffix(flushed, d.marked, t, k);
      UntouchedTail(flushed, t, k);
    }
  }

  function Start(): Db {
    Db(map[], map[], RecordLog([[]], []), Position(0, 0), 0, Idle)
  }

  predicate Legal(d: Db, steps: seq<Step>)
    requires d.log.groups != []
    decreases |steps|
  {
    steps == [] || (Enabled(d, steps[0]) && Legal(Do(d, steps[0]), steps[1..]))
  }

  function After(d: Db, steps: seq<Step>): (e: Db)
    requires d.log.groups != [] && Legal(d, steps)
    ensures e.log.groups != []
    decreases |steps|
  {
    if steps == [] then d else After(Do(d, steps[0]), steps[1..])
  }

  lemma StartInv()
    ensures Inv(Start())
  {
    var d := Start();
    EndIsBehindAll(d.log);
    assert d.log.groups[..0] == [] && Flatten(d.log.groups) == [];
    forall k ensures OnDisk(d, 0, k) {
      assert SameAt(d.disk, Replay(History(d.log)[..0]), k);
    }
  }

  lemma {:induction false} RunKeeps(d: Db, steps: seq<Step>)
    requires d.log.groups != [] && Inv(d) && Legal(d, steps)
    ensures Inv(After(d, steps))
    decreases |steps|
  {
    hide Inv, Do, Enabled;
    if steps != [] {
      StepKeeps(d, steps[0]);
      RunKeeps(Do(d, steps[0]), steps[1..]);
    }
  }

  /**
    Crash recovery. After any run of logged writes, log flushes, page writes and trickle flushes, if all
    that was flushed behind the mark can be read, a crash followed by one replay from the mark ends well
    and leaves every key with the value that some prefix of the history gives it, no shorter than the
    flushed log; and with the value of the flushed log itself if no unflushed record touches the key.
   */
  lemma CrashRecovery(steps: seq<Step>, k: FullKey) returns (q: nat)
    requires Legal(Start(), steps)
    requires var d := After(Start(), steps);
             forall n :: d.marked <= n < |Flatten(d.log.groups)| ==> Readable(Flatten(d.log.groups)[n])
    ensures var d := After(Start(), steps);
            var h, flushed := History(d.log), Flatten(d.log.groups);
            && OnFile(BytesOf(d.log).files, d.mark)
            && LastRead(BytesOf(d.log).files, d.mark.index, d.mark.offset) == NoEntry
            && |flushed| <= q <= |h| && SameAt(Recover(d), Replay(h[..q]), k)
            && (!Touches(d.log.pending, k) ==> SameAt(Recover(d), Replay(flushed), k))
  {
    hide Flatten, Replay, ReplayOnto, Touches, Behind, OnDisk, EncodeAll, Readable, LastRead, Recover, Decided,
      Legal, After;
    StartInv();
    RunKeeps(Start(), steps);
    var d := After(Start(), steps);
    var h, flushed := History(d.log), Flatten(d.log.groups);
    NoneBad(flushed, d.marked);
    RecoveryEnds(d);
    RecoveryExactly(d, k);
    assert flushed[..|flushed|] == flushed && h[..|flushed|] == flushed;
    q := |flushed|;
    if !Touches(flushed[d.marked..], k) {
      q := DiskMatches(d, k);
      assert SameAt(Recover(d), d.disk, k) by { UntouchedRecovered(d, k); }
      if !Touches(d.log.pending, k) {
        PendingUntouched(d, q, k);
      }
    }
  }

  lemma UntouchedRecovered(d: Db, k: FullKey)
    requires Inv(d) && ReachDecided(d) && !Touches(Flatten(d.log.groups)[d.marked..], k)
    ensures OnFile(BytesOf(d.log).files, d.mark) && SameAt(Recover(d), d.disk, k)
  {
    hide Flatten, Replay, ReplayOnto, Touches, EncodeAll, Recover;
    RecoveredIs(d);
    var flushed := Flatten(d.log.groups);
    UntouchedSuffix(flushed, d.marked, Reach(d), k);
    ReplayOntoKey(d.disk, d.disk, flushed[d.marked..Reach(d)], k);
  }

  lemma PendingUntouched(d: Db, q: nat, k: FullKey)
    requires |Flatten(d.log.groups)| <= q <= |History(d.log)| && !Touches(d.log.pending, k)
    ensures SameAt(Replay(History(d.log)[..q]), Replay(Flatten(d.log.groups)), k)
  {
    hide Flatten, Replay, Touches;
    var mid, flushed := History(d.log)[..q], Flatten(d.log.groups);
    var n := |flushed|;
    assert mid[..n] == flushed && mid[n..] == d.log.pending[..q - n];
    UntouchedSuffix(d.log.pending, 0, q - n, k);
    assert d.log.pending[0..] == d.log.pending && d.log.pending[0..q - n] == d.log.pending[..q - n];
    UntouchedTail(mid, n, k);
  }

  /** Pages may reach disk before their log record: then the recovered store is ahead of the log. */
  lemma PageAheadOfLog(r: Record)
    requires Written(r) && IsSet(r) && RecordLength(r) < BUFF_SIZE
    ensures var steps := [Write(r), PageOut(KeyOf(r))];
            && Legal(Start(), steps)
            && var d := After(Start(), steps);
               && OnFile(BytesOf(d.log).files, d.mark)
               && !SameAt(Recover(d), Replay(Flatten(d.log.groups)), KeyOf(r))
  {
    var a, b := Write(r), PageOut(KeyOf(r));
    var d0 := Start();
    var d1 := Do(d0, a);
    var d2 := Do(d1, b);
    StartInv();
    assert [a, b][1..] == [b] && [b][1..] == [];
    assert Legal(d2, []) && Legal(d1, [b]);
    assert After(d2, []) == d2 && After(d1, [b]) == d2;
    StepKeeps(d0, a);
    StepKeeps(d1, b);
    RecoveryExactly(d2, KeyOf(r));
    assert d2.log.groups == [[]];
    assert Flatten(d2.log.groups) == [] by { assert d2.log.groups[..0] == []; }
  }

  /**
    An undecided record can be lost without an error: its set is flushed, but too few bytes seem to
    follow, so the replay ends well and the key is gone.
   */
  lemma UndecidedLost(r: Record)
    requires Written(r) && IsSet(r) && r.info.objId != [] && Shift(r) > |r.value| + 1
    ensures var steps := [Write(r), FlushLog];
            && Legal(Start(), steps)
            && var d := After(Start(), steps);
               && Flatten(d.log.groups) == [r] && KeyOf(r) in Replay([r])
               && OnFile(BytesOf(d.log).files, d.mark)
               && LastRead(BytesOf(d.log).files, d.mark.index, d.mark.offset) == NoEntry
               && Recover(d) == map[]
  {
    hide Parse, Encode, RecordLength, Apply, WriteRecord, FlushRecords, BytesOf, Flatten, Legal, After, BinlogRead,
      LastRead, Recover;
    ShortRecord(r);
    var d2 := WriteThenFlush(r);
    OneFlushed(r);
    assert Parse(Encode(r) + []) == NoEntry by { WideShifted(r, []); }
    NothingRead(d2);
    assert Replay([r]) == Apply(map[], r);
    assert KeyOf(r) in Replay([r]) by { SetIsThere(map[], r); }
  }

  lemma WriteThenFlush(r: Record) returns (d: Db)
    requires Written(r) && IsSet(r)
    ensures Legal(Start(), [Write(r), FlushLog]) && After(Start(), [Write(r), FlushLog]) == d
    ensures d.disk == map[] && d.mark == Position(0, 0) && d.marked == 0
    ensures d.log == FlushRecords(WriteRecord(RecordLog([[]], []), r))
  {
    hide Apply, WriteRecord, FlushRecords, Written;
    var a, b := Write(r), FlushLog;
    var d1 := Do(Start(), a);
    d := Do(d1, b);
    assert [a, b][1..] == [b] && [b][1..] == [];
    assert Legal(d, []) && Legal(d1, [b]);
    assert After(d, []) == d && After(d1, [b]) == d;
  }

  lemma ShortRecord(r: Record)
    requires CRecord(r) && |r.value| <= MAX_NAMESPACE_LEN
    ensures RecordLength(r) < BUFF_SIZE
  {
  }

  lemma SetIsThere(st: Store, r: Record)
    requires IsSet(r)
    ensures KeyOf(r) in Apply(st, r)
  {
  }

  /** A replay that reads nothing leaves what the disk holds. */
  lemma NothingRead(d: Db)
    requires OnFile(BytesOf(d.log).files, d.mark)
    requires BinlogRead(BytesOf(d.log).files, d.mark.index, d.mark.offset).parsed == NoEntry
    ensures LastRead(BytesOf(d.log).files, d.mark.index, d.mark.offset) == NoEntry && Recover(d) == d.disk
  {
    hide BinlogRead, BytesOf;
    ReplayNothing(d.disk);
  }

  /** The log after one write and one flush: one file, perhaps with an empty one behind it. */
  lemma OneFlushed(r: Record)
    requires RecordLength(r) < BUFF_SIZE
    ensures var g := FlushRecords(WriteRecord(RecordLog([[]], []), r));
            && Flatten(g.groups) == [r] && |g.groups| > 0
            && BytesOf(g).files != [] && BytesOf(g).files[0] == Encode(r) != []
            && BinlogRead(BytesOf(g).files, 0, 0).parsed == Parse(Encode(r) + [])
  {
    hide Parse, Encode, RecordLength;
    ReadOne(r, []);
    var g0 := RecordLog([[]], []);
    var g := FlushRecords(WriteRecord(g0, r));
    WriteCommutes(g0, r);
    FlushCommutes(WriteRecord(g0, r));
    EncodeAllOne(r);
    assert g.groups[0] == [r];
    assert Encode(r) + [] == Encode(r) && Encode(r)[0..] == Encode(r);
  }
}
