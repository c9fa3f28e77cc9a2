/**
  The request handlers and a turn of a peer's sync loop, as they change a server's store, its log
  and a reader. Each is the step of `ReplicationBytes` it stands for.
 */
module Shipping {
  import opened Bytes
  import opened Decimal
  import opened RecordCodec
  import opened Binlog
  import opened BinlogFiles
  import R = Replication
  import B = ReplicationBytes
  import opened FullKeys
  import C = Counters

  /** What the store answers: done, or an error - after which the key may be gone. */
  datatype Stored = Done | Fails(errno: int, drops: bool)

  /** The record of a command: its expiry counted by the server's clock, and for a client's its time too. */
  function Stamped(r: Record, clock: int): Record {
    R.Received(r, clock).(timestamp := if IsSource(r) then clock else r.timestamp)
  }

  /** The record of an increment: a set to the number it arrives at. */
  function Incremented(st: R.Store, r: Record, inc: int, clock: int): Record {
    var stored := if R.KeyOf(r) in st then Some(st[R.KeyOf(r)]) else None;
    Stamped(r.(value := Show(C.NewCount(stored, inc, clock))), clock)
  }

  /** A counter that a get does not show starts again at the increment. */
  lemma NotShown(st: R.Store, r: Record, inc: int, clock: int)
    ensures var key := R.KeyOf(r);
            (key in st ==> |st[key]| >= 4) && !R.VisibleAt(st, key, clock) ==>
              Incremented(st, r, inc, clock).value == Show(inc)
  {
    hide GetInt, Show;
  }

  class Peer {
    var store: R.Store
    const log: BinlogWriter
    ghost var readers: seq<B.Reader>
    ghost var lost: set<R.FullKey>

    ghost predicate Valid()
      reads this, log, log.cache
    {
      log.Valid()
    }

    ghost function View(): B.Server
      requires Valid()
      reads this, log, log.cache
    {
      B.Server(store, log.State(), readers, lost)
    }

    /** An empty server with its own log and one reader for each of `peers` others. */
    constructor (peers: nat)
      ensures Valid() && fresh(log) && fresh(log.cache)
      ensures View()
           == B.Server(map[], Log([[]], []),
                       seq(peers, _ => B.Reader(Position(0, 0), Position(0, 0), map[], {})), {})
    {
      log := new BinlogWriter();
      store, lost := map[], {};
      readers := seq(peers, _ => B.Reader(Position(0, 0), Position(0, 0), map[], {}));
    }

    /** A stored or removed key, and the record of it; unless its text overruns the log's buffer. */
    method StoreAndLog(r: Record) returns (overrun: bool)
      requires Valid() && CRecord(r) && R.Logged(store, r)
      modifies this`store, this`lost, log, log.cache
      ensures Valid() && store == R.Apply(old(store), r)
      ensures overrun <==> |Binlog.Write(old(log.State()), r).buffer| > BUFF_SIZE
      ensures overrun ==> Wide(r.timestamp) || Wide(r.keyHash) || Wide(r.expires)
      ensures !overrun ==> View() == B.Handle(old(View()), r)
    {
      hide Encode, Parse, CRecord;
      var key := R.KeyOf(r);
      if IsSet(r) {
        store := store[key := R.StoredValue(r)];
      } else {
        store := store - {key};
      }
      overrun := log.Write(r);
      lost := lost - {key};
    }

    /** The store has failed; it may have unlinked the key before. */
    method StoreFails(key: R.FullKey, drops: bool)
      requires Valid()
      modifies this`store, this`lost
      ensures Valid() && View() == if drops then B.Drop(old(View()), key) else old(View())
    {
      if drops {
        lost := if key in store then lost + {key} else lost;
        store := store - {key};
      }
    }

    /** `deal_cmd_set`, with the lengths of the request parsed: store first, and log what was stored. */
    method DealSet(r: Record, clock: int, answer: Stored) returns (result: int, overrun: bool)
      requires Valid() && CRecord(r) && IsSet(r) && IsInt32(clock) && (answer.Fails? ==> answer.errno != 0)
      modifies this`store, this`lost, log, log.cache
      ensures Valid()
      ensures var refused := (r.info.key == [] && r.value == []) || (r.op == SOURCE_SET && r.info.key == LIST_KEY);
              var w := Stamped(r, clock);
              if refused then result == EINVAL && !overrun && View() == old(View())
              else if answer.Fails? then
                && result == answer.errno && !overrun
                && View() == if answer.drops then B.Drop(old(View()), R.KeyOf(r)) else old(View())
              else
                && result == 0 && store == R.Apply(old(store), w)
                && (overrun <==> |Binlog.Write(old(log.State()), w).buffer| > BUFF_SIZE)
                && (overrun ==> Wide(w.timestamp) || Wide(w.keyHash) || Wide(w.expires))
                && (!overrun ==> View() == B.Handle(old(View()), w))
      ensures result == 0 ==>
                && R.Pack(r.info) in store
                && store[R.Pack(r.info)] == PutInt(R.Rebased(r.timestamp, r.expires, clock)) + r.value
      ensures result == 0 && !overrun ==>
                log.State() == Binlog.Write(old(log.State()),
                                            Record(if r.op == SOURCE_SET then clock else r.timestamp, r.op, r.keyHash,
                                                   R.Rebased(r.timestamp, r.expires, clock), r.info, r.value))
      ensures Separable(r.info) ==>
                forall k | Separable(k) && k != r.info :: R.SameAt(store, old(store), R.Pack(k))
    {
      hide Encode, Parse, Binlog.Write;
      forall k | Separable(r.info) && Separable(k) && k != r.info ensures R.Pack(k) != R.KeyOf(r) {
        PackExactly(k, r.info);
      }
      hide R.Pack;
      overrun := false;
      if (r.info.key == [] && r.value == []) || (r.op == SOURCE_SET && r.info.key == LIST_KEY) {
        return EINVAL, false;
      }
      if answer.Fails? {
        StoreFails(R.KeyOf(r), answer.drops);
        return answer.errno, false;
      }
      overrun := StoreAndLog(Stamped(r, clock));
      result := 0;
    }

    /** `deal_cmd_del`: a key that is not there is not logged. */
    method DealDel(r: Record, clock: int) returns (result: int, overrun: bool)
      requires Valid() && CRecord(r) && !IsSet(r) && r.value == [] && IsInt32(clock)
      modifies this`store, this`lost, log, log.cache
      ensures Valid()
      ensures var refused := r.info.key == [] || (r.op == SOURCE_DEL && r.info.key == LIST_KEY);
              var w := Stamped(r.(expires := 0), clock);
              if refused then result == EINVAL && !overrun && View() == old(View())
              else if R.KeyOf(r) !in old(store) then result == ENOENT && !overrun && View() == old(View())
              else
                && result == 0 && store == old(store) - {R.KeyOf(r)}
                && (overrun <==> |Binlog.Write(old(log.State()), w).buffer| > BUFF_SIZE)
                && (overrun ==> Wide(w.timestamp) || Wide(w.keyHash))
                && (!overrun ==> View() == B.Handle(old(View()), w))
      ensures result == 0 && !overrun ==>
                log.State() == Binlog.Write(old(log.State()),
                                            Record(if r.op == SOURCE_DEL then clock else r.timestamp, r.op, r.keyHash,
                                                   0, r.info, []))
      ensures Separable(r.info) ==>
                forall k | Separable(k) && k != r.info :: R.SameAt(store, old(store), R.Pack(k))
    {
      hide Encode, Parse, Binlog.Write;
      forall k | Separable(r.info) && Separable(k) && k != r.info ensures R.Pack(k) != R.KeyOf(r) {
        PackExactly(k, r.info);
      }
      hide R.Pack;
      overrun := false;
      if r.info.key == [] || (r.op == SOURCE_DEL && r.info.key == LIST_KEY) {
        return EINVAL, false;
      }
      if R.KeyOf(r) !in store {
        return ENOENT, false;
      }
      overrun := StoreAndLog(Stamped(r.(expires := 0), clock));
      result := 0;
    }

    /**
      `deal_cmd_inc` over the memory store: the number the value stands for, increased, becomes the
      new value, and is logged as a set with the expiry it has in the store.
     */
    method DealInc(r: Record, inc: int, clock: int, answer: Stored)
      returns (result: int, value: seq<Byte>, overrun: bool)
      requires Valid() && CRecord(r) && r.op == SOURCE_SET && IsInt32(inc) && IsInt32(clock)
      requires answer.Fails? ==> answer.errno != 0
      modifies this`store, this`lost, log, log.cache
      ensures Valid()
      ensures var key := R.KeyOf(r);
              var before := if key in old(store) then Some(old(store)[key]) else None;
              var w := Incremented(old(store), r, inc, clock);
              if r.info.key == [] || r.info.key == LIST_KEY then
                result == EINVAL && !overrun && View() == old(View())
              else if answer.Fails? then
                && result == answer.errno && !overrun
                && View() == if answer.drops then B.Drop(old(View()), key) else old(View())
              else
                && result == 0 && value == w.value
                && store == old(store)[key := C.IncValue(before, inc, R.Rebased(r.timestamp, r.expires, clock), clock)]
                && (overrun <==> |Binlog.Write(old(log.State()), w).buffer| > BUFF_SIZE)
                && (overrun ==> Wide(w.timestamp) || Wide(w.keyHash) || Wide(w.expires))
                && (!overrun ==> View() == B.Handle(old(View()), w))
      ensures var key := R.KeyOf(r);
              result == 0 && (key in old(store) ==> |old(store)[key]| >= 4) && !R.VisibleAt(old(store), key, clock) ==>
                value == Show(inc)
      ensures result == 0 && !overrun ==>
                log.State() == Binlog.Write(old(log.State()),
                                            Record(clock, SOURCE_SET, r.keyHash,
                                                   R.Rebased(r.timestamp, r.expires, clock), r.info, value))
      ensures Separable(r.info) ==>
                forall k | Separable(k) && k != r.info :: R.SameAt(store, old(store), R.Pack(k))
    {
      NotShown(store, r, inc, clock);
      hide Encode, Parse, Binlog.Write, PutInt, GetInt, C.NewCount, Show;
      forall k | Separable(r.info) && Separable(k) && k != r.info ensures R.Pack(k) != R.KeyOf(r) {
        PackExactly(k, r.info);
      }
      hide R.Pack;
      overrun, value := false, [];
      if r.info.key == [] || r.info.key == LIST_KEY {
        return EINVAL, [], false;
      }
      var key := R.KeyOf(r);
      if answer.Fails? {
        StoreFails(key, answer.drops);
        return answer.errno, [], false;
      }
      var w := Incremented(store, r, inc, clock);
      C.CounterFits(C.NewCount(if key in store then Some(store[key]) else None, inc, clock));
      value := w.value;
      overrun := StoreAndLog(w);
      result := 0;
    }
  }

  ghost function ReaderView(rd: BinlogReader, skipped: map<R.FullKey, int>, clocks: set<int>): B.Reader
    reads rd
  {
    B.Reader(Position(rd.index, rd.offset), rd.mark, skipped, clocks)
  }

  /** The record's text is longer than the length counted for it. */
  predicate TooWide(r: Record) { Wide(r.timestamp) || Wide(r.keyHash) || Wide(r.expires) }

  /**
    One turn of `fdht_sync_thread_entrance`: read a record, send what `fdht_sync_data` makes of it,
    and move on only if that was acknowledged or not needed. `marks` says whether this turn's count
    of sent rows makes it write the mark file; `stops` says that the log cannot be read further, on
    which the server ends itself.
   */
  method Turn(from: Peer, reader: BinlogReader, to: Peer, outcome: R.Delivery, marks: bool, now: int, clock: int,
              ghost skipped: map<R.FullKey, int>, ghost clocks: set<int>)
      returns (goesOn: bool, stops: bool, overrun: bool)
    requires from.Valid() && to.Valid() && to.log != from.log && to.log.cache != from.log.cache && IsInt32(clock)
    requires reader.On(from.log.files) && reader.pos == reader.offset
    modifies reader, to`store, to`lost, to.log, to.log.cache
    ensures to.Valid() && from.Valid() && reader.On(from.log.files) && reader.pos == reader.offset
    ensures var rr := BinlogRead(from.log.files, old(reader.index), old(reader.offset));
            var rd := B.AfterRead(old(ReaderView(reader, skipped, clocks)), rr);
            && (stops <==> rr.parsed == Invalid)
            && if !rr.parsed.Complete? then
                 ReaderView(reader, skipped, clocks) == rd && !overrun && to.View() == old(to.View())
               else
                 var r := rr.parsed.record;
                 var sent := R.Transmit(r, true, true, 0, now);
                 && ReaderView(reader, R.Skipped(skipped, r, sent.Some?, outcome, now),
                               if sent.Some? && !outcome.Refused? then clocks + {clock} else clocks)
                    == B.Advance(rd, r, rr.parsed.length, sent.Some?, outcome, marks, now, clock)
                 && (overrun ==> sent.Some? && !outcome.Refused? && TooWide(R.Received(sent.value, clock)))
                 && (!overrun ==>
                       to.View() == if sent.None? then old(to.View())
                                    else B.Receive(old(to.View()), R.Received(sent.value, clock), outcome))
  {
    hide BinlogRead, TooWide, R.Received, R.Transmit, Wide, B.Receive, R.Skipped, IsCommand;
    ReadIsCommand(from.log.files, reader.index, reader.offset, now);
    var p := reader.Read(from.log);
    goesOn, stops, overrun := true, p.Invalid?, false;
    if p.Complete? {
      goesOn, overrun := DealWith(reader, to, p.record, p.length, outcome, marks, now, clock);
    }
  }

  /** Sends what has just been read, if it has to be sent, and moves on or back. */
  method DealWith(reader: BinlogReader, to: Peer, r: Record, length: nat, outcome: R.Delivery, marks: bool, now: int,
                  clock: int)
      returns (goesOn: bool, overrun: bool)
    requires to.Valid() && IsInt32(clock) && IsCommand(r, now) && reader.pos == reader.offset + length
    modifies reader`offset, reader`pos, reader`mark, to`store, to`lost, to.log, to.log.cache
    ensures to.Valid() && reader.pos == reader.offset
    ensures var sent := R.Transmit(r, true, true, 0, now);
            && reader.offset == old(reader.offset) + (if sent.Some? && outcome != R.Done then 0 else length)
            && reader.mark == (if marks then Position(reader.index, old(reader.offset)) else old(reader.mark))
            && (overrun ==> sent.Some? && !outcome.Refused? && TooWide(R.Received(sent.value, clock)))
            && (!overrun ==>
                  to.View() == if sent.None? then old(to.View())
                               else B.Receive(old(to.View()), R.Received(sent.value, clock), outcome))
  {
    hide TooWide, R.Received, R.Transmit, Wide, CRecord, B.Receive;
    goesOn, overrun := true, false;
    var sent := R.Transmit(r, true, true, 0, now);
    if sent.Some? {
      overrun := Send(to, sent.value, outcome, clock);
    }
    if marks {
      reader.WriteMark();
    }
    if sent.Some? && outcome != R.Done {
      reader.pos := reader.pos - length;  // rewind_to_prev_rec_end
      goesOn := false;
    } else {
      reader.Advance(length);
    }
  }

  /** What is sent is a command of the other server: a replica's, with a key, within the C types. */
  predicate IsCommand(r: Record, now: int) {
    var sent := R.Transmit(r, true, true, 0, now);
    sent.Some? ==>
      && CRecord(sent.value) && !IsSource(sent.value) && sent.value.info.key != []
      && (IsSet(sent.value) || (sent.value.value == [] && sent.value.expires == 0))
      && sent.value.keyHash == r.keyHash
  }

  lemma SentIsCommand(data: seq<Byte>, now: int)
    ensures Parse(data).Complete? ==> IsCommand(Parse(data).record, now)
  {
    hide Parse;
    ParsedTyped(data);
  }

  lemma {:induction false} ReadIsCommand(files: seq<seq<Byte>>, index: nat, offset: nat, now: int)
    requires index < |files| && offset <= |files[index]|
    ensures var p := BinlogRead(files, index, offset).parsed;
            p.Complete? ==> IsCommand(p.record, now)
    decreases |files| - index
  {
    hide Parse, IsCommand;
    if offset < |files[index]| {
      SentIsCommand(files[index][offset..], now);
    } else if index + 1 < |files| {
      ReadIsCommand(files, index + 1, 0, now);
    }
  }

  /** The command as it reaches the other server: handled, handled without the answer getting back, or refused. */
  method Send(to: Peer, r: Record, outcome: R.Delivery, clock: int) returns (overrun: bool)
    requires to.Valid() && CRecord(r) && !IsSource(r) && r.info.key != [] && IsInt32(clock)
    requires IsSet(r) || (r.value == [] && r.expires == 0)
    modifies to`store, to`lost, to.log, to.log.cache
    ensures to.Valid()
    ensures overrun ==> !outcome.Refused? && TooWide(R.Received(r, clock))
    ensures !overrun ==> to.View() == B.Receive(old(to.View()), R.Received(r, clock), outcome)
  {
    hide Binlog.Write;
    overrun := false;
    if outcome.Refused? {
      if outcome.drops && IsSet(r) {
        to.store := to.store - {R.KeyOf(r)};
      }
      return;
    }
    var result;
    if IsSet(r) {
      result, overrun := to.DealSet(r, clock, Done);
    } else {
      result, overrun := to.DealDel(r, clock);
    }
  }
}
