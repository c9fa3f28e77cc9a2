/** The writer's global buffer, file and index, and a peer's reader, as the objects they are. */
module BinlogFiles {
  import opened Bytes
  import opened Decimal
  import opened RecordCodec
  import opened Binlog

  class BinlogWriter {
    var files: seq<seq<Byte>>  // contents of every log file; the last one is open for appending
    var index: nat  // g_binlog_index
    var fileSize: nat  // g_binlog_file_size
    const cache: array<Byte>
    var current: nat

    ghost predicate Valid()
      reads this, cache
    {
      |files| == index + 1 && fileSize == |files[index]| && cache.Length == BUFF_SIZE && current <= BUFF_SIZE
    }

    ghost function State(): Log
      requires Valid()
      reads this, cache
    {
      Log(files, cache[..current])
    }

    constructor ()
      ensures Valid() && State() == Log([[]], []) && fresh(cache)
    {
      files, index, fileSize, current := [[]], 0, 0, 0;
      cache := new Byte[BUFF_SIZE];
    }

    /** One `write` to the open file. */
    method AppendToFile(data: seq<Byte>)
      requires |files| == index + 1
      modifies this`files
      ensures files == old(files)[..index] + [old(files)[index] + data]
    {
      files := files[..index] + [files[index] + data];
    }

    /** Size accounting after a write, and rotation once the limit is reached. */
    method AccountAndRotate(written: nat)
      requires |files| == index + 1 && fileSize + written == |files[index]|
      modifies this`files, this`index, this`fileSize
      ensures |files| == index + 1 && fileSize == |files[index]|
      ensures files == old(files) + if |old(files)[old(index)]| >= FILE_MAX_SIZE then [[]] else []
    {
      fileSize := fileSize + written;
      if fileSize >= FILE_MAX_SIZE {
        files := files + [[]];
        index := index + 1;
        fileSize := 0;
      }
    }

    method Fsync()
      requires Valid()
      modifies this
      ensures Valid() && State() == Flush(old(State()))
    {
      var writeLen := current;
      if writeLen != 0 {
        AppendToFile(cache[..writeLen]);
        AccountAndRotate(writeLen);
      }
      current := 0;
    }

    /** A record too long for the buffer goes to the file in three pieces. */
    method DirectWrite(r: Record)
      requires Valid() && current == 0
      modifies this
      ensures Valid() && State() == Log(Append(old(files), Encode(r)), [])
    {
      hide Header, PackKeyInfo;
      var buff := Header(r) + PackKeyInfo(r.info);
      ghost var file := files[index];
      AppendToFile(buff);
      if |r.value| > 0 {
        AppendToFile(r.value);
      }
      assert files[index] == file + buff + r.value;
      AppendToFile([NEWLINE]);
      assert files[index] == file + (buff + r.value + [NEWLINE]);
      AccountAndRotate(|buff| + |r.value| + 1);
    }

    method CopyToCache(text: seq<Byte>)
      requires Valid() && current + |text| <= BUFF_SIZE
      modifies this`current, cache
      ensures Valid() && State() == Log(files, old(State().buffer) + text)
    {
      forall i | 0 <= i < |text| {
        cache[current + i] := text[i];
      }
      current := current + |text|;
      assert cache[current - |text|..current] == text;
    }

    /**
      `fdht_binlog_write`. `overrun` says that the text printed into the buffer goes past its end,
      which happens only when a number is too wide; the model stops before that.
     */
    method Write(r: Record) returns (overrun: bool)
      requires Valid() && CRecord(r)
      modifies this, cache
      ensures Valid()
      ensures overrun <==> |Binlog.Write(old(State()), r).buffer| > BUFF_SIZE
      ensures overrun ==> Wide(r.timestamp) || Wide(r.keyHash) || Wide(r.expires)
      ensures !overrun ==> State() == Binlog.Write(old(State()), r)
    {
      hide Encode, Append, CRecord;
      BufferBound(State(), r);
      var recordLen := RecordLength(r);
      if recordLen >= BUFF_SIZE {
        Fsync();
        DirectWrite(r);
        return false;
      }
      if BUFF_SIZE - current < recordLen {
        Fsync();
      }
      overrun := current + |Encode(r)| > BUFF_SIZE;
      if !overrun {
        CopyToCache(Encode(r));
      }
    }
  }

  class BinlogReader {
    var index: nat
    var offset: nat
    var pos: nat  // position of the file descriptor
    var mark: Position  // what the mark file holds

    ghost predicate On(files: seq<seq<Byte>>)
      reads this
    {
      index < |files| && offset <= pos <= |files[index]|
    }

    /** `fdht_reader_init`: reopen the log where the mark file says. */
    constructor (m: Position)
      ensures index == m.index && pos == offset == m.offset && mark == m
    {
      index, offset, pos, mark := m.index, m.offset, m.offset, m;
    }

    method WriteMark()
      modifies this`mark
      ensures mark == Position(index, offset)
    {
      mark := Position(index, offset);
    }

    /** `read`: at most `n` bytes, fewer at the end of the file. */
    method ReadBytes(file: seq<Byte>, n: nat) returns (data: seq<Byte>)
      requires pos <= |file|
      modifies this`pos
      ensures pos == old(pos) + |data| <= |file| && |data| <= n
      ensures data == file[old(pos)..pos]
      ensures |data| == if |file| - old(pos) < n then |file| - old(pos) else n
    {
      var end := if |file| - pos < n then |file| else pos + n;
      data := file[pos..end];
      pos := end;
    }

    /** The two reads behind a valid header. */
    method ReadBody(file: seq<Byte>, f: Fields) returns (p: Parsed, total: nat)
      requires ValidFields(f) && pos <= |file|
      modifies this`pos
      ensures p == ParseBody(f, file[old(pos)..])
      ensures pos == old(pos) + total <= |file|
      ensures p.Complete? ==> p.length == FIX_FIELDS_LENGTH + total
    {
      ghost var data := file[pos..];
      var fullKeyLen := f.nsLen + 1 + f.objLen + 1 + f.keyLen + 1;
      var keys := ReadBytes(file, fullKeyLen);
      total := |keys|;
      if |keys| != fullKeyLen {
        return NoEntry, total;
      }
      assert keys == data[..fullKeyLen];
      var ns := keys[..f.nsLen];
      var objId := keys[f.nsLen + 1..f.nsLen + 1 + f.objLen];
      var key := keys[f.nsLen + 1 + f.objLen + 1..fullKeyLen - 1];
      var value := ReadBytes(file, f.valueLen + 1);
      total := total + |value|;
      if |value| != f.valueLen + 1 {
        return NoEntry, total;
      }
      assert value == data[fullKeyLen..fullKeyLen + f.valueLen + 1];
      if value[f.valueLen] != NEWLINE {
        return Invalid, total;
      }
      p := Complete(Record(f.timestamp, f.op, f.keyHash, f.expires, KeyInfo(ns, objId, key), value[..f.valueLen]),
                    FIX_FIELDS_LENGTH + total);
    }

    /** The header read, moving on to the next file at the end of an old one. */
    method ReadHeader(log: BinlogWriter) returns (header: seq<Byte>)
      requires log.Valid() && On(log.files)
      modifies this
      ensures index < |log.files| && offset == if index == old(index) then old(offset) else 0
      ensures |header| <= pos && offset <= pos - |header| <= pos <= |log.files[index]|
      ensures BinlogRead(log.files, index, pos - |header|) == BinlogRead(log.files, old(index), old(pos))
      ensures header == log.files[index][pos - |header|..pos]
      ensures |header| == FIX_FIELDS_LENGTH || (|header| < FIX_FIELDS_LENGTH && pos == |log.files[index]|)
      ensures header == [] ==> index == log.index
      ensures mark == if index == old(index) then old(mark) else Position(index, 0)
    {
      hide Parse;
      header := ReadBytes(log.files[index], FIX_FIELDS_LENGTH);
      while header == [] && index < log.index
        invariant old(index) <= index < |log.files| && offset == if index == old(index) then old(offset) else 0
        invariant |header| <= pos && offset <= pos - |header| <= pos <= |log.files[index]|
        invariant BinlogRead(log.files, index, pos - |header|) == BinlogRead(log.files, old(index), old(pos))
        invariant header == log.files[index][pos - |header|..pos]
        invariant |header| == FIX_FIELDS_LENGTH || (|header| < FIX_FIELDS_LENGTH && pos == |log.files[index]|)
        invariant mark == if index == old(index) then old(mark) else Position(index, 0)
        decreases log.index - index
      {
        index := index + 1;
        offset, pos := 0, 0;
        WriteMark();
        header := ReadBytes(log.files[index], FIX_FIELDS_LENGTH);
      }
    }

    /** Everything behind the header read, with the rewind when no record comes out of it. */
    method ReadRest(file: seq<Byte>, header: seq<Byte>) returns (p: Parsed)
      requires header != [] && |header| <= pos <= |file| && header == file[pos - |header|..pos]
      requires |header| == FIX_FIELDS_LENGTH || (|header| < FIX_FIELDS_LENGTH && pos == |file|)
      modifies this`pos
      ensures p == Parse(file[old(pos) - |header|..])
      ensures pos == old(pos) - |header| + if p.Complete? then p.length else 0
    {
      hide ParseBody, ScanFields, CString;
      ghost var data := file[pos - |header|..];
      var total := |header|;
      if |header| != FIX_FIELDS_LENGTH {
        p := NoEntry;
      } else {
        assert header == data[..FIX_FIELDS_LENGTH];
        assert file[pos..] == data[FIX_FIELDS_LENGTH..];
        match ScanFields(CString(header)) {
          case None => p := Invalid;
          case Some(f) =>
            if ValidFields(f) {
              var n;
              p, n := ReadBody(file, f);
              total := total + n;
            } else {
              p := Invalid;
            }
        }
      }
      if !p.Complete? {
        pos := pos - total;  // rewind_to_prev_rec_end
      }
    }

    /**
      `fdht_binlog_read`. The next record comes from the descriptor's position; `offset` is only
      compared with the end of the log. It is the caller's to advance, and recovery never does.
     */
    method Read(log: BinlogWriter) returns (p: Parsed)
      requires log.Valid() && On(log.files)
      modifies this
      ensures var r := BinlogRead(log.files, old(index), old(pos));
              && p == r.parsed && index == r.index
              && pos == r.offset + if p.Complete? then p.length else 0
      ensures On(log.files) && offset == if index == old(index) then old(offset) else 0
      ensures mark == if index == old(index) then old(mark) else Position(index, 0)
    {
      hide Parse;
      if index == log.index && offset == log.fileSize {
        return NoEntry;
      }
      var header := ReadHeader(log);
      if header == [] {
        return NoEntry;
      }
      p := ReadRest(log.files[index], header);
    }

    /** The record has been dealt with: move on behind it. */
    method Advance(length: nat)
      requires pos == offset + length
      modifies this`offset
      ensures offset == pos == old(offset) + length
    {
      offset := offset + length;
    }
  }
}
