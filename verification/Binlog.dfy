/**
  The binlog: a write buffer in front of a list of files, rotated by size, and the reader that
  follows it across rotations. `Log` and `BinlogRead` are what the writer and reader compute;
  `RecordLog` is the same log seen as records instead of bytes.
 */
module Binlog {
  import opened Bytes
  import opened RecordCodec

  const BUFF_SIZE: nat := 1024 * 1024
  const FILE_MAX_SIZE: nat := 2 * 1023 * 1024 * 1024

  /** All log files in order (the last is being written) and the bytes not yet flushed. */
  datatype Log = Log(files: seq<seq<Byte>>, buffer: seq<Byte>)

  // ---------- writing ----------

  /** Bytes appended to the current file; a file that has reached the limit is followed by a new one. */
  function Append(files: seq<seq<Byte>>, data: seq<Byte>): (r: seq<seq<Byte>>)
    requires files != []
    ensures r != []
  {
    var last := files[|files| - 1] + data;
    var grown := files[..|files| - 1] + [last];
    if |last| >= FILE_MAX_SIZE then grown + [[]] else grown
  }

  function Flush(log: Log): (r: Log)
    requires log.files != []
    ensures r.files != [] && r.buffer == []
  {
    if log.buffer == [] then log else Log(Append(log.files, log.buffer), [])
  }

  function Write(log: Log, r: Record): (l: Log)
    requires log.files != []
    ensures l.files != []
  {
    if RecordLength(r) >= BUFF_SIZE then
      Log(Append(Flush(log).files, Encode(r)), [])
    else
      var room := if BUFF_SIZE - |log.buffer| < RecordLength(r) then Flush(log) else log;
      Log(room.files, room.buffer + Encode(r))
  }

  // ---------- reading ----------

  datatype ReadResult = ReadResult(parsed: Parsed, index: nat, offset: nat)

  /** One call of the reader: skip to the next file at the end of an old one, then parse. */
  function BinlogRead(files: seq<seq<Byte>>, index: nat, offset: nat): (r: ReadResult)
    requires index < |files| && offset <= |files[index]|
    ensures r.index < |files| && r.offset <= |files[r.index]|
    ensures r.offset == if r.index == index then offset else 0
    ensures r.index >= index
    ensures r.parsed.Complete? ==> 0 < r.parsed.length <= |files[r.index]| - r.offset
    decreases |files| - index
  {
    if offset == |files[index]| then
      if index + 1 < |files| then BinlogRead(files, index + 1, 0)
      else ReadResult(NoEntry, index, offset)
    else ReadResult(Parse(files[index][offset..]), index, offset)
  }

  /** The records a reader returns one after another until a read yields none. */
  function Drain(files: seq<seq<Byte>>, index: nat, offset: nat): (rs: seq<Record>)
    requires index < |files| && offset <= |files[index]|
    decreases |files| - index, |files[index]| - offset
  {
    var r := BinlogRead(files, index, offset);
    if r.parsed.Complete? then [r.parsed.record] + Drain(files, r.index, r.offset + r.parsed.length) else []
  }

  // ---------- the same log as records ----------

  /** The records of each file, and those still in the buffer. */
  datatype RecordLog = RecordLog(groups: seq<seq<Record>>, pending: seq<Record>)

  predicate AllReadable(rs: seq<Record>) { forall i :: 0 <= i < |rs| ==> Readable(rs[i]) }

  predicate AllLoggable(rs: seq<Record>) { forall i :: 0 <= i < |rs| ==> Loggable(rs[i]) }

  predicate AllDecided(rs: seq<Record>) { forall i :: 0 <= i < |rs| ==> Decided(rs[i]) }

  predicate AllTyped(rs: seq<Record>) { forall i :: 0 <= i < |rs| ==> CRecord(rs[i]) }

  function AsReadAll(rs: seq<Record>): (out: seq<Record>)
    ensures |out| == |rs|
  {
    seq(|rs|, i requires 0 <= i < |rs| => AsRead(rs[i]))
  }

  function BytesOf(g: RecordLog): Log {
    Log(seq(|g.groups|, i requires 0 <= i < |g.groups| => EncodeAll(g.groups[i])), EncodeAll(g.pending))
  }

  function Flatten(groups: seq<seq<Record>>): (rs: seq<Record>) {
    if groups == [] then [] else Flatten(groups[..|groups| - 1]) + groups[|groups| - 1]
  }

  /** Every record ever written, in order. */
  function History(g: RecordLog): seq<Record> { Flatten(g.groups) + g.pending }

  function AppendRecords(groups: seq<seq<Record>>, rs: seq<Record>): (r: seq<seq<Record>>)
    requires groups != []
    ensures r != []
  {
    var last := groups[|groups| - 1] + rs;
    var grown := groups[..|groups| - 1] + [last];
    if |EncodeAll(last)| >= FILE_MAX_SIZE then grown + [[]] else grown
  }

  function FlushRecords(g: RecordLog): (r: RecordLog)
    requires g.groups != []
    ensures r.groups != [] && r.pending == []
  {
    if g.pending == [] then g else RecordLog(AppendRecords(g.groups, g.pending), [])
  }

  function WriteRecord(g: RecordLog, r: Record): (h: RecordLog)
    requires g.groups != []
    ensures h.groups != []
  {
    if RecordLength(r) >= BUFF_SIZE then
      RecordLog(AppendRecords(FlushRecords(g).groups, [r]), [])
    else
      var room := if BUFF_SIZE - |EncodeAll(g.pending)| < RecordLength(r) then FlushRecords(g) else g;
      RecordLog(room.groups, room.pending + [r])
  }

  lemma {:induction false} EncodeAllConcat(a: seq<Record>, b: seq<Record>)
    ensures EncodeAll(a + b) == EncodeAll(a) + EncodeAll(b)
  {
    hide Encode;
    if a == [] {
      assert a + b == b;
    } else {
      EncodeAllConcat(a[1..], b);
      assert (a + b)[1..] == a[1..] + b && (a + b)[0] == a[0];
      Associative(Encode(a[0]), EncodeAll(a[1..]), EncodeAll(b));
    }
  }

  lemma Associative(a: seq<Byte>, b: seq<Byte>, c: seq<Byte>)
    ensures a + (b + c) == a + b + c
  {
  }

  lemma EncodeAllOne(r: Record)
    ensures EncodeAll([r]) == Encode(r)
  {
  }

  lemma EncodedEmpty(rs: seq<Record>)
    ensures EncodeAll(rs) == [] <==> rs == []
  {
  }

  lemma AppendCommutes(g: RecordLog, rs: seq<Record>)
    requires g.groups != []
    ensures BytesOf(RecordLog(AppendRecords(g.groups, rs), [])).files == Append(BytesOf(g).files, EncodeAll(rs))
    ensures Flatten(AppendRecords(g.groups, rs)) == Flatten(g.groups) + rs
  {
    hide Parse, Encode, EncodeAll;
    var n := |g.groups| - 1;
    var last := g.groups[n] + rs;
    EncodeAllConcat(g.groups[n], rs);
    var grown := g.groups[..n] + [last];
    assert grown[..n] == g.groups[..n];
    assert Flatten(grown) == Flatten(g.groups) + rs;
    assert (grown + [[]])[..n + 1] == grown;
    EncodeAllNil();
  }

  lemma EncodeAllNil()
    ensures EncodeAll([]) == []
  {
  }

  lemma EncodeAllFirst(rs: seq<Record>)
    ensures rs != [] ==> EncodeAll(rs) == Encode(rs[0]) + EncodeAll(rs[1..])
  {
    hide Encode;
  }

  /** Flushing bytes is flushing records; nothing is lost or reordered. */
  lemma FlushCommutes(g: RecordLog)
    requires g.groups != []
    ensures BytesOf(FlushRecords(g)) == Flush(BytesOf(g))
    ensures History(FlushRecords(g)) == History(g)
  {
    hide EncodeAll;
    EncodedEmpty(g.pending);
    EncodeAllNil();
    AppendCommutes(g, g.pending);
  }

  /** Writing bytes is appending one record to the history. */
  lemma WriteCommutes(g: RecordLog, r: Record)
    requires g.groups != []
    ensures BytesOf(WriteRecord(g, r)) == Write(BytesOf(g), r)
    ensures History(WriteRecord(g, r)) == History(g) + [r]
  {
    hide EncodeAll, AppendRecords, Append, FlushRecords;
    FlushCommutes(g);
    EncodeAllOne(r);
    EncodeAllNil();
    if RecordLength(r) >= BUFF_SIZE {
      AppendCommutes(FlushRecords(g), [r]);
    } else {
      var room := if BUFF_SIZE - |EncodeAll(g.pending)| < RecordLength(r) then FlushRecords(g) else g;
      EncodeAllConcat(room.pending, [r]);
    }
  }

  // ---------- the size of the buffer ----------

  /** A write keeps the buffer within its allocation, or goes past it by what the numbers are too wide. */
  lemma BufferBound(log: Log, r: Record)
    requires log.files != [] && |log.buffer| <= BUFF_SIZE && CRecord(r)
    ensures |Write(log, r).buffer| <= BUFF_SIZE + Excess(r)
    ensures RecordLength(r) >= BUFF_SIZE ==> Write(log, r).buffer == []
  {
    hide Encode, Append;
    EncodedLength(r);
  }

  /** A buffer with exactly the room that the record is computed to need. */
  lemma Overrun(r: Record) returns (log: Log)
    requires CRecord(r) && RecordLength(r) < BUFF_SIZE
    ensures log.files != [] && |log.buffer| <= BUFF_SIZE
    ensures |Write(log, r).buffer| == BUFF_SIZE + Excess(r)
  {
    hide Encode;
    EncodedLength(r);
    log := Log([[]], seq(BUFF_SIZE - RecordLength(r), _ => 0));
  }

  /**
    Whatever the buffer holds, the write of a record stays within the allocation if and only if the
    record goes straight to the file or none of its numbers needs an eleventh character.
   */
  lemma BufferBoundExactly(r: Record)
    requires CRecord(r)
    ensures (forall log: Log :: log.files != [] && |log.buffer| <= BUFF_SIZE ==> |Write(log, r).buffer| <= BUFF_SIZE)
       <==> RecordLength(r) >= BUFF_SIZE || (!Wide(r.timestamp) && !Wide(r.keyHash) && !Wide(r.expires))
  {
    hide Write, RecordLength;
    if RecordLength(r) >= BUFF_SIZE || Excess(r) == 0 {
      forall log: Log | log.files != [] && |log.buffer| <= BUFF_SIZE
        ensures |Write(log, r).buffer| <= BUFF_SIZE
      {
        BufferBound(log, r);
      }
    } else {
      var log := Overrun(r);
    }
  }

  // ---------- reader positions ----------

  /** The reader stands behind the first `k` records of file `index`. */
  ghost predicate At(groups: seq<seq<Record>>, index: nat, offset: nat, k: nat) {
    index < |groups| && k <= |groups[index]| && offset == |EncodeAll(groups[index][..k])|
  }

  /** How many records of the whole log lie before that position. */
  ghost function Count(groups: seq<seq<Record>>, index: nat, k: nat): nat
    requires index < |groups|
  {
    |Flatten(groups[..index])| + k
  }

  lemma {:induction false} FlattenSplit(groups: seq<seq<Record>>, index: nat)
    requires index < |groups|
    ensures |Flatten(groups[..index])| + |groups[index]| <= |Flatten(groups)|
    ensures forall j :: 0 <= j < |groups[index]| ==>
              Flatten(groups)[|Flatten(groups[..index])| + j] == groups[index][j]
    ensures index == |groups| - 1 ==> |Flatten(groups)| == |Flatten(groups[..index])| + |groups[index]|
    ensures index < |groups| - 1 ==> |Flatten(groups[..index + 1])| == |Flatten(groups[..index])| + |groups[index]|
  {
    var front := groups[..|groups| - 1];
    if index < |groups| - 1 {
      FlattenSplit(front, index);
      assert front[..index] == groups[..index];
      assert groups[..index + 1][..index] == groups[..index];
    }
  }

  lemma EncodeAllDrop(rs: seq<Record>, k: nat)
    requires k < |rs|
    ensures |EncodeAll(rs[..k])| + |Encode(rs[k])| == |EncodeAll(rs[..k + 1])| <= |EncodeAll(rs)|
    ensures EncodeAll(rs)[|EncodeAll(rs[..k])|..] == Encode(rs[k]) + EncodeAll(rs[k + 1..])
  {
    hide Encode;
    EncodeAllConcat(rs[..k], rs[k..]);
    assert rs[..k] + rs[k..] == rs;
    assert rs[k..][1..] == rs[k + 1..];
    EncodeAllConcat(rs[..k], [rs[k]]);
    EncodeAllOne(rs[k]);
    assert rs[..k] + [rs[k]] == rs[..k + 1];
    EncodeAllConcat(rs[..k + 1], rs[k + 1..]);
    assert rs[..k + 1] + rs[k + 1..] == rs;
  }

  /**
    A reader standing behind n records of the log gets "no entry" if that is all that has been
    flushed. Otherwise it gets record n, and then stands behind n + 1, if and only if that record is
    readable; at a decided record that is not, it gets EINVAL and still stands behind n.
   */
  lemma {:induction false} ReadAt(g: RecordLog, index: nat, offset: nat, k: nat) returns (k': nat)
    requires At(g.groups, index, offset, k)
    ensures offset <= |BytesOf(g).files[index]|
    ensures var r := BinlogRead(BytesOf(g).files, index, offset);
            var n := Count(g.groups, index, k);
            var flushed := Flatten(g.groups);
            && At(g.groups, r.index, r.offset, k')
            && Count(g.groups, r.index, k') == n <= |flushed|
            && (n == |flushed| ==> r.parsed == NoEntry)
            && (n < |flushed| && Readable(flushed[n]) ==>
                  && r.parsed == Complete(AsRead(flushed[n]), RecordLength(flushed[n]))
                  && At(g.groups, r.index, r.offset + r.parsed.length, k' + 1))
            && (n < |flushed| && !Readable(flushed[n]) ==>
                  && (CRecord(flushed[n]) ==> !(r.parsed.Complete? && r.parsed.record == AsRead(flushed[n])))
                  && (Decided(flushed[n]) ==> r.parsed == Invalid))
    decreases |g.groups| - index
  {
    hide Parse, Encode, Flatten;
    var rs := g.groups[index];
    FlattenSplit(g.groups, index);
    k' := k;
    if k < |rs| {
      hide EncodeAll;
      EncodeAllDrop(rs, k);
      ReadOne(rs[k], EncodeAll(rs[k + 1..]));
    } else {
      assert rs[..k] == rs;
      if index + 1 < |g.groups| {
        assert g.groups[index + 1][..0] == [];
        k' := ReadAt(g, index + 1, 0, 0);
      }
    }
  }

  /** What the reader makes of one record, whatever follows it. */
  lemma ReadOne(r: Record, rest: seq<Byte>)
    ensures Encode(r) != []
    ensures Readable(r) ==>
              Parse(Encode(r) + rest) == Complete(AsRead(r), RecordLength(r)) && |Encode(r)| == RecordLength(r)
    ensures CRecord(r) && !Readable(r) ==>
              !(Parse(Encode(r) + rest).Complete? && Parse(Encode(r) + rest).record == AsRead(r))
    ensures Decided(r) && !Readable(r) ==> Parse(Encode(r) + rest) == Invalid
  {
    hide Parse, Header, PackKeyInfo;
    if Readable(r) {
      RoundTrip(r, rest);
    } else if CRecord(r) {
      ReadsExactly(r, rest);
      if Decided(r) {
        ReadsBackOrStops(r, rest);
      }
    }
  }

  /** Later writes and rotations move no reader. */
  lemma AtIsStable(groups: seq<seq<Record>>, rs: seq<Record>, index: nat, offset: nat, k: nat)
    requires groups != [] && At(groups, index, offset, k)
    ensures At(AppendRecords(groups, rs), index, offset, k)
    ensures Count(AppendRecords(groups, rs), index, k) == Count(groups, index, k)
  {
    hide EncodeAll;
    var n := |groups| - 1;
    var r := AppendRecords(groups, rs);
    assert r[..index] == groups[..index];
    assert r[index][..k] == groups[index][..k];
  }

  /** The first record from `n` on that is not readable, or the end. */
  function FirstBad(rs: seq<Record>, n: nat): (m: nat)
    requires n <= |rs|
    ensures n <= m <= |rs| && (m < |rs| ==> !Readable(rs[m]))
    ensures forall i :: n <= i < m ==> Readable(rs[i])
    decreases |rs| - n
  {
    if n < |rs| && Readable(rs[n]) then FirstBad(rs, n + 1) else n
  }

  /**
    What a reader returns from record n on: the records in order as far as they are readable, and all
    of them if and only if all are. At the first that is not it stops, if that is decided.
   */
  ghost predicate Drained(rs: seq<Record>, n: nat, out: seq<Record>)
    requires n <= |rs|
  {
    var m := FirstBad(rs, n);
    && AsReadAll(rs[n..m]) <= out
    && (out == AsReadAll(rs[n..]) <==> m == |rs|)
    && (m == |rs| || Decided(rs[m]) ==> out == AsReadAll(rs[n..m]))
  }

  lemma DrainedStep(rs: seq<Record>, n: nat, out: seq<Record>)
    requires n < |rs| && Readable(rs[n]) && Drained(rs, n + 1, out)
    ensures Drained(rs, n, [AsRead(rs[n])] + out)
  {
    hide Readable, Decided, AsRead;
    var m, longer := FirstBad(rs, n), [AsRead(rs[n])] + out;
    assert AsReadAll(rs[n..m]) == [AsRead(rs[n])] + AsReadAll(rs[n + 1..m]);
    assert AsReadAll(rs[n..]) == [AsRead(rs[n])] + AsReadAll(rs[n + 1..]);
    assert longer[1..] == out && AsReadAll(rs[n..])[1..] == AsReadAll(rs[n + 1..]);
  }

  /** From any record boundary the reader returns the flushed records that follow, as far as it can. */
  lemma {:induction false} DrainAll(g: RecordLog, index: nat, offset: nat, k: nat)
    requires At(g.groups, index, offset, k) && AllTyped(Flatten(g.groups))
    ensures offset <= |BytesOf(g).files[index]|
    ensures Count(g.groups, index, k) <= |Flatten(g.groups)|
    ensures Drained(Flatten(g.groups), Count(g.groups, index, k), Drain(BytesOf(g).files, index, offset))
    decreases |Flatten(g.groups)| - Count(g.groups, index, k)
  {
    hide Parse, EncodeAll, Flatten, BinlogRead, RecordLength, Readable, Decided, CRecord, AsRead;
    var k' := ReadAt(g, index, offset, k);
    var r := BinlogRead(BytesOf(g).files, index, offset);
    var n := Count(g.groups, index, k);
    var flushed := Flatten(g.groups);
    if n < |flushed| && Readable(flushed[n]) {
      hide Drained;
      assert Count(g.groups, r.index, k' + 1) == n + 1;
      DrainAll(g, r.index, r.offset + r.parsed.length, k' + 1);
      DrainedStep(flushed, n, Drain(BytesOf(g).files, r.index, r.offset + r.parsed.length));
    } else if n < |flushed| {
      assert AsReadAll(flushed[n..])[0] == AsRead(flushed[n]);
    }
  }

  datatype Position = Position(index: nat, offset: nat)

  predicate OnFile(files: seq<seq<Byte>>, p: Position) {
    p.index < |files| && p.offset <= |files[p.index]|
  }

  /** The position lies behind exactly n records of the log. */
  ghost predicate Behind(groups: seq<seq<Record>>, p: Position, n: nat) {
    exists k :: At(groups, p.index, p.offset, k) && Count(groups, p.index, k) == n
  }

  lemma BehindAppend(groups: seq<seq<Record>>, rs: seq<Record>, p: Position, n: nat)
    requires groups != [] && Behind(groups, p, n)
    ensures Behind(AppendRecords(groups, rs), p, n)
  {
    hide Count, AppendRecords, EncodeAll;
    var k :| At(groups, p.index, p.offset, k) && Count(groups, p.index, k) == n;
    AtIsStable(groups, rs, p.index, p.offset, k);
  }

  /** A log only grows: readers stay where they are and flushed records stay flushed. */
  ghost predicate Grows(g: RecordLog, h: RecordLog) {
    && Flatten(g.groups) <= Flatten(h.groups)
    && forall p, n :: Behind(g.groups, p, n) ==> Behind(h.groups, p, n)
  }

  lemma FlushGrows(g: RecordLog)
    requires g.groups != []
    ensures Grows(g, FlushRecords(g))
  {
    hide Behind, AppendRecords;
    if g.pending != [] {
      AppendCommutes(g, g.pending);
      forall p, n | Behind(g.groups, p, n)
        ensures Behind(FlushRecords(g).groups, p, n)
      {
        BehindAppend(g.groups, g.pending, p, n);
      }
    }
  }

  lemma WriteGrows(g: RecordLog, r: Record)
    requires g.groups != []
    ensures Grows(g, WriteRecord(g, r))
  {
    hide Behind, AppendRecords, FlushRecords, Flatten, RecordLength, Grows, EncodeAll;
    FlushGrows(g);
    var f := FlushRecords(g);
    if RecordLength(r) >= BUFF_SIZE {
      AppendGrows(f, [r]);
      GrowsOn(g, f, WriteRecord(g, r));
    } else if BUFF_SIZE - |EncodeAll(g.pending)| < RecordLength(r) {
      PendingGrows(g, f, WriteRecord(g, r));
    } else {
      GrowsSelf(g);
      PendingGrows(g, g, WriteRecord(g, r));
    }
  }

  lemma AppendGrows(g: RecordLog, rs: seq<Record>)
    requires g.groups != []
    ensures Grows(g, RecordLog(AppendRecords(g.groups, rs), []))
  {
    hide Behind, AppendRecords, Flatten;
    AppendCommutes(g, rs);
    forall p, n | Behind(g.groups, p, n)
      ensures Behind(AppendRecords(g.groups, rs), p, n)
    {
      BehindAppend(g.groups, rs, p, n);
    }
  }

  lemma GrowsSelf(g: RecordLog)
    ensures Grows(g, g)
  {
  }

  lemma GrowsOn(f: RecordLog, g: RecordLog, h: RecordLog)
    requires Grows(f, g) && Grows(g, h)
    ensures Grows(f, h)
  {
    hide Behind, Flatten;
  }

  lemma PendingGrows(f: RecordLog, g: RecordLog, h: RecordLog)
    requires Grows(f, g) && h.groups == g.groups
    ensures Grows(f, h)
  {
    hide Behind, Flatten;
  }

  // ---------- a torn tail ----------

  /** How many leading records fit whole into `cut` bytes. */
  function Fits(rs: seq<Record>, cut: nat): (k: nat)
    ensures k <= |rs|
  {
    if rs == [] || |Encode(rs[0])| > cut then 0 else 1 + Fits(rs[1..], cut - |Encode(rs[0])|)
  }

  /** The bytes those records take. */
  function FitBytes(rs: seq<Record>, cut: nat): (n: nat)
    ensures n <= cut
  {
    if rs == [] || |Encode(rs[0])| > cut then 0
    else |Encode(rs[0])| + FitBytes(rs[1..], cut - |Encode(rs[0])|)
  }

  /** How many leading bytes of `torn` belong to complete records. */
  lemma {:induction false} FitBytesIs(rs: seq<Record>, cut: nat)
    ensures FitBytes(rs, cut) == |EncodeAll(rs[..Fits(rs, cut)])|
    decreases rs
  {
    hide Encode;
    if rs != [] && |Encode(rs[0])| <= cut {
      var k := Fits(rs[1..], cut - |Encode(rs[0])|);
      FitBytesIs(rs[1..], cut - |Encode(rs[0])|);
      assert rs[..k + 1][1..] == rs[1..][..k];
    }
  }

  /**
    On any byte prefix of a file, the last one of the log, the reader returns exactly the complete
    records and then keeps reporting "no entry" at the end of the last complete one.
   */
  lemma {:induction false} TornTail(files: seq<seq<Byte>>, last: nat, from: nat, rs: seq<Record>)
    requires |files| == last + 1 && from <= |files[last]|
    requires AllReadable(rs) && files[last][from..] <= EncodeAll(rs)
    ensures Drain(files, last, from) == AsReadAll(rs[..Fits(rs, |files[last]| - from)])
    ensures BinlogRead(files, last, from + FitBytes(rs, |files[last]| - from))
         == ReadResult(NoEntry, last, from + FitBytes(rs, |files[last]| - from))
    decreases rs
  {
    hide Parse, Encode, Readable, AsRead, RecordLength, EncodeAll, BinlogRead, Drain;
    EncodeAllNil();
    EncodeAllFirst(rs);
    var torn := files[last][from..];
    if rs == [] {
      NothingMore(files, last, from);
    } else {
      var first := Encode(rs[0]);
      if |first| > |torn| {
        assert torn == first[..|torn|];
        TornRecord(files, last, from, rs[0]);
      } else {
        var rest := torn[|first|..];
        assert torn == first + rest;
        WholeRecord(files, last, from, rs[0], rest);
        assert files[last][from + |first|..] == rest;
        TornTail(files, last, from + |first|, rs[1..]);
        var k := Fits(rs[1..], |rest|);
        assert AsReadAll(rs[..k + 1]) == [AsRead(rs[0])] + AsReadAll(rs[1..][..k]);
      }
    }
  }

  lemma NothingMore(files: seq<seq<Byte>>, last: nat, from: nat)
    requires |files| == last + 1 && from == |files[last]|
    ensures BinlogRead(files, last, from) == ReadResult(NoEntry, last, from) && Drain(files, last, from) == []
  {
  }

  /** The last file ends within a record. */
  lemma TornRecord(files: seq<seq<Byte>>, last: nat, from: nat, r: Record)
    requires |files| == last + 1 && from <= |files[last]| && Readable(r)
    requires |files[last]| - from < |Encode(r)| && files[last][from..] == Encode(r)[..|files[last]| - from]
    ensures BinlogRead(files, last, from) == ReadResult(NoEntry, last, from) && Drain(files, last, from) == []
  {
    hide Parse, Encode, Readable;
    Truncated(r, |files[last]| - from);
  }

  lemma WholeRecord(files: seq<seq<Byte>>, last: nat, from: nat, r: Record, rest: seq<Byte>)
    requires |files| == last + 1 && from <= |files[last]| && Readable(r) && files[last][from..] == Encode(r) + rest
    ensures |Encode(r)| == RecordLength(r) && from + RecordLength(r) <= |files[last]|
    ensures Drain(files, last, from) == [AsRead(r)] + Drain(files, last, from + RecordLength(r))
  {
    hide Parse, Encode, Readable, RecordLength, AsRead;
    ReadOne(r, rest);
  }

  // ---------- whole runs ----------

  datatype LogOp = WriteOp(record: Record) | FlushOp

  function Records(ops: seq<LogOp>): (rs: seq<Record>) {
    if ops == [] then []
    else
      var last := ops[|ops| - 1];
      Records(ops[..|ops| - 1]) + (if last.WriteOp? then [last.record] else [])
  }

  function Run(ops: seq<LogOp>): (log: Log)
    ensures log.files != []
  {
    if ops == [] then Log([[]], [])
    else
      var log := Run(ops[..|ops| - 1]);
      match ops[|ops| - 1]
      case WriteOp(r) => Write(log, r)
      case FlushOp => Flush(log)
  }

  lemma {:induction false} RunOfRecords(ops: seq<LogOp>) returns (g: RecordLog)
    ensures g.groups != [] && BytesOf(g) == Run(ops) && History(g) == Records(ops)
  {
    hide Write, Flush, WriteRecord, FlushRecords;
    if ops == [] {
      g := RecordLog([[]], []);
      assert BytesOf(g).files == [[]];
      assert g.groups[..0] == [] && Flatten(g.groups) == [];
    } else {
      g := RunOfRecords(ops[..|ops| - 1]);
      match ops[|ops| - 1]
      case WriteOp(r) =>
        WriteCommutes(g, r);
        g := WriteRecord(g, r);
      case FlushOp =>
        FlushCommutes(g);
        g := FlushRecords(g);
    }
  }

  /** No number in these records needs an eleventh character. */
  /** Every file that has been left has reached the limit, and the one being written has not. */
  ghost predicate Rotated(files: seq<seq<Byte>>) {
    && files != [] && |files[|files| - 1]| < 2 * 1023 * 1024 * 1024
    && forall i | 0 <= i < |files| - 1 :: |files[i]| >= 2 * 1023 * 1024 * 1024
  }

  lemma AppendRotates(files: seq<seq<Byte>>, data: seq<Byte>)
    requires Rotated(files)
    ensures Rotated(Append(files, data))
    ensures |Append(files, data)| == |files| + if |files[|files| - 1]| + |data| >= FILE_MAX_SIZE then 1 else 0
  {
    var n, r := |files| - 1, Append(files, data);
    assert forall i | 0 <= i < n :: r[i] == files[i];
    assert r[n] == files[n] + data;
  }

  /** Rotation, over every run of writes and flushes. */
  lemma {:induction false} RunRotates(ops: seq<LogOp>)
    ensures Rotated(Run(ops).files)
  {
    hide Append, Rotated, Encode, RecordLength;
    if ops == [] {
      assert Rotated([[]]) by { FirstFile(); }
    } else {
      var log := Run(ops[..|ops| - 1]);
      RunRotates(ops[..|ops| - 1]);
      AppendRotates(log.files, log.buffer);
      match ops[|ops| - 1]
      case WriteOp(r) => AppendRotates(Flush(log).files, Encode(r));
      case FlushOp =>
    }
  }

  lemma FirstFile()
    ensures Rotated([[]])
  {
  }

  predicate AllNarrow(rs: seq<Record>) { forall i :: 0 <= i < |rs| ==> CRecord(rs[i]) && Excess(rs[i]) == 0 }

  lemma {:induction false} RunBound(ops: seq<LogOp>)
    requires AllNarrow(Records(ops))
    ensures |Run(ops).buffer| <= BUFF_SIZE
  {
    hide Write, Excess, CRecord;
    if ops != [] {
      var front := ops[..|ops| - 1];
      forall i | 0 <= i < |Records(front)| ensures CRecord(Records(front)[i]) && Excess(Records(front)[i]) == 0 {
        assert Records(front)[i] == Records(ops)[i];
      }
      RunBound(front);
      if ops[|ops| - 1].WriteOp? {
        assert Records(ops)[|Records(front)|] == ops[|ops| - 1].record;
        BufferBound(Run(front), ops[|ops| - 1].record);
      }
    }
  }

  /**
    For every run of writes and flushes: files in order followed by the buffer are exactly the encoded
    records; the buffer stays within its size if no number is too wide; and a reader from the start
    returns, once the buffer is empty, exactly what was written if and only if all of it is readable.
   */
  lemma LogIsFaithful(ops: seq<LogOp>)
    requires AllTyped(Records(ops))
    ensures Concat(Run(ops).files) + Run(ops).buffer == EncodeAll(Records(ops))
    ensures AllNarrow(Records(ops)) ==> |Run(ops).buffer| <= BUFF_SIZE
    ensures AllReadable(Records(ops)) ==> Drain(Run(ops).files, 0, 0) <= AsReadAll(Records(ops))
    ensures Run(ops).buffer == [] ==>
              (Drain(Run(ops).files, 0, 0) == AsReadAll(Records(ops)) <==> AllReadable(Records(ops)))
    ensures AllLoggable(Records(ops)) ==> AsReadAll(Records(ops)) == Records(ops)
  {
    hide Run, Records, Drain, EncodeAll, CRecord, Readable, AsRead, Excess;
    var g := RunOfRecords(ops);
    EncodedEmpty(g.pending);
    ConcatEncoded(g.groups);
    EncodeAllConcat(Flatten(g.groups), g.pending);
    assert g.groups[0][..0] == [] && g.groups[..0] == [];
    EncodeAllNil();
    var flushed := Flatten(g.groups);
    assert flushed <= Records(ops);
    assert AllTyped(flushed) by {
      forall i | 0 <= i < |flushed| ensures CRecord(flushed[i]) { assert flushed[i] == Records(ops)[i]; }
    }
    DrainAll(g, 0, 0, 0);
    if AllReadable(Records(ops)) {
      forall i | 0 <= i < |flushed| ensures Readable(flushed[i]) { assert flushed[i] == Records(ops)[i]; }
      assert AsReadAll(flushed) <= AsReadAll(Records(ops));
    }
    if AllLoggable(Records(ops)) {
      LoggableAsRead(Records(ops));
    }
    if AllNarrow(Records(ops)) {
      RunBound(ops);
    }
  }

  lemma LoggableAsRead(rs: seq<Record>)
    requires AllLoggable(rs)
    ensures AsReadAll(rs) == rs
  {
    forall i | 0 <= i < |rs| ensures AsRead(rs[i]) == rs[i] {
      assert Loggable(rs[i]);
    }
  }

  /** The overrun is reached: one record that fills the buffer up to what the next is computed to need. */
  lemma OverrunReached(r: Record) returns (first: Record)
    requires CRecord(r) && RecordLength(r) <= BUFF_SIZE - 66
    ensures Loggable(first)
    ensures |Run([WriteOp(first), WriteOp(r)]).buffer| == BUFF_SIZE + Excess(r)
  {
    hide Encode, Excess, Loggable;
    first := Record(1, SOURCE_SET, 0, 0, KeyInfo([], [], [97]), seq(BUFF_SIZE - 66 - RecordLength(r), _ => 0));
    assert Loggable(first) by { FillerLoggable(first); }
    assert RecordLength(first) == BUFF_SIZE - RecordLength(r);
    RoundTrip(first, []);
    EncodedLength(r);
    var ops := [WriteOp(first), WriteOp(r)];
    assert ops[..1] == [WriteOp(first)] && [WriteOp(first)][..0] == [];
    assert Run([]).buffer == [];
    assert Run(ops[..1]).buffer == [] + Encode(first);
  }

  lemma FillerLoggable(r: Record)
    requires r.timestamp == 1 && r.op == SOURCE_SET && r.keyHash == 0 && r.expires == 0
    requires r.info == KeyInfo([], [], [97]) && |r.value| <= BUFF_SIZE
    ensures Loggable(r)
  {
  }

  function Concat(files: seq<seq<Byte>>): (s: seq<Byte>) {
    if files == [] then [] else Concat(files[..|files| - 1]) + files[|files| - 1]
  }

  lemma {:induction false} ConcatEncoded(groups: seq<seq<Record>>)
    ensures Concat(BytesOf(RecordLog(groups, [])).files) == EncodeAll(Flatten(groups))
  {
    hide EncodeAll;
    EncodeAllNil();
    if groups != [] {
      var n := |groups| - 1;
      ConcatEncoded(groups[..n]);
      assert BytesOf(RecordLog(groups, [])).files[..n] == BytesOf(RecordLog(groups[..n], [])).files;
      EncodeAllConcat(Flatten(groups[..n]), groups[n]);
    }
  }
}
