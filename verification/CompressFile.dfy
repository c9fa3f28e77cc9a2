/** The compressor's loops: scan a log file into rows, sort them, copy the selected records. */
module CompressFile {
  import opened Bytes
  import opened Decimal
  import opened RecordCodec
  import opened Binlog
  import opened Replication
  import opened Compress
  import Base64
  import Base64Context

  datatype Scanned = Eof | Bad | Found(fields: Fields, info: KeyInfo, length: nat)

  /** `compress_binlog_read`: fields and key of the record at the file position; the value is skipped unread. */
  function Scan(data: seq<Byte>): (r: Scanned) {
    if data == [] then Eof
    else if |data| < FIX_FIELDS_LENGTH then Bad
    else
      match ScanFields(CString(data[..FIX_FIELDS_LENGTH]))
      case None => Bad
      case Some(f) =>
        if !(0 <= f.nsLen <= MAX_NAMESPACE_LEN && 0 <= f.objLen <= MAX_OBJECT_ID_LEN
             && 0 <= f.keyLen <= MAX_SUB_KEY_LEN && 0 <= f.valueLen) then Bad
        else
          var fullKeyLen := f.nsLen + 1 + f.objLen + 1 + f.keyLen + 1;
          var body := data[FIX_FIELDS_LENGTH..];
          if |body| < fullKeyLen then Bad
          else
            var ns := body[..f.nsLen];
            var objId := body[f.nsLen + 1..f.nsLen + 1 + f.objLen];
            var key := body[f.nsLen + 1 + f.objLen + 1..fullKeyLen - 1];
            Found(f, KeyInfo(ns, objId, key), FIX_FIELDS_LENGTH + fullKeyLen + f.valueLen + 1)
  }

  lemma ScanEncoded(r: Record, rest: seq<Byte>)
    requires Scannable(r)
    ensures Scan(Encode(r) + rest) == Found(FieldsOf(AsRead(r)), r.info, RecordLength(r))
    ensures |Encode(r)| == RecordLength(r) && AsRead(r).expires == LowHalf(r.expires)
  {
    hide ScanFields, Encode, CString;
    PlainParts(r, rest);
    var body := PackKeyInfo(r.info) + r.value + [NEWLINE] + rest;
    var a := |r.info.ns| + 1;
    var b := a + |r.info.objId| + 1;
    assert body[..a - 1] == r.info.ns;
    assert body[a..b - 1] == r.info.objId;
    assert body[b..b + |r.info.key|] == r.info.key;
  }

  /** What the scan finds behind the first n records of a complete file. */
  lemma ScanAt(rs: seq<Record>, n: nat)
    requires AllScannable(rs) && n <= |rs|
    ensures var offset := |EncodeAll(rs[..n])|;
            && offset <= |EncodeAll(rs)|
            && (n == |rs| ==> Scan(EncodeAll(rs)[offset..]) == Eof)
            && (n < |rs| ==>
                  && Scan(EncodeAll(rs)[offset..]) == Found(FieldsOf(AsRead(rs[n])), rs[n].info, RecordLength(rs[n]))
                  && AsRead(rs[n]).expires == LowHalf(rs[n].expires)
                  && offset + RecordLength(rs[n]) == |EncodeAll(rs[..n + 1])|)
  {
    hide Encode, EncodeAll, Scannable, RecordLength, FieldsOf, AsRead;
    if n < |rs| {
      EncodeAllDrop(rs, n);
      ScanEncoded(rs[n], EncodeAll(rs[n + 1..]));
    } else {
      assert rs[..n] == rs;
    }
  }

  /** The first loop: one row per record. */
  method ScanRows(file: seq<Byte>, ghost rs: seq<Record>) returns (rows: seq<Row>)
    requires file == EncodeAll(rs) && AllScannable(rs)
    ensures rows == Rows(rs)
  {
    hide Scan, Text, EncodeAll, AllScannable, RecordLength, LowHalf;
    var context := new Base64Context.Context(0, 43, 47, 61);
    assert context.Meaning() == Letters();
    var offset := 0;
    rows := [];
    assert rs[..0] == [];
    EncodeAllNil();
    ScanAt(rs, 0);
    var r := Scan(file);
    assert file[0..] == file;
    while r.Found?
      invariant context.Valid() && context.Meaning() == Letters()
      invariant |rows| <= |rs| && offset == |EncodeAll(rs[..|rows|])| <= |file|
      invariant forall i :: 0 <= i < |rows| ==> rows[i] == RowOf(rs, i)
      invariant r == Scan(file[offset..])
      decreases |rs| - |rows|
    {
      ScanAt(rs, |rows|);
      var text := context.Encode(Pack(r.info), false);
      TextIs(KeyOf(rs[|rows|]));
      rows := rows + [Row(text, r.fields.expires, r.fields.op, offset, r.length, |rows|)];
      offset := offset + r.length;
      ScanAt(rs, |rows|);
      r := Scan(file[offset..]);
    }
    ScanAt(rs, |rows|);
  }

  lemma TextIs(k: FullKey)
    ensures Text(k) == Base64.Encoded(Letters(), k, false)
  {
  }

  const MAX_FULL_KEY_LEN := MAX_NAMESPACE_LEN + 1 + MAX_OBJECT_ID_LEN + 1 + MAX_SUB_KEY_LEN

  /** The size of the buffer that a key is encoded into. */
  const KEY_TEXT_SIZE := MAX_FULL_KEY_LEN / 3 * 4

  /**
    The encoder writes whole groups, padded or not, and a zero behind them. Within the buffer that
    stays exactly for keys whose parts have no more than 316 bytes together; the limits allow 320.
   */
  lemma KeyTextFits(r: Record)
    requires CRecord(r)
    ensures |Base64.Encoded(Letters(), KeyOf(r), true)| + 1 <= KEY_TEXT_SIZE
       <==> |r.info.ns| + |r.info.objId| + |r.info.key| <= 316
  {
    hide Base64.Encoded;
    Base64Context.LettersWellFormed(43, 47, 61, 0);
    Base64.LengthExact(Letters(), KeyOf(r));
  }

  /** `compress_write_to_binlog`: copy one record unless it deletes or has expired. */
  method CopyRow(file: seq<Byte>, row: Row, now: int, dest: seq<Byte>) returns (dest': seq<Byte>)
    requires row.offset + row.length <= |file|
    ensures dest' == dest + if Live(row.op, row.expires, now) then file[row.offset..row.offset + row.length] else []
  {
    dest' := dest;
    if (row.expires != 0 && row.expires < now) || row.op == SOURCE_DEL || row.op == REPLICA_DEL {
      return;
    }
    dest' := dest + file[row.offset..row.offset + row.length];
  }

  lemma RowBytes(rs: seq<Record>, i: nat)
    requires i < |rs| && AllScannable(rs)
    ensures RowOf(rs, i).offset + RowOf(rs, i).length <= |EncodeAll(rs)|
    ensures EncodeAll(rs)[RowOf(rs, i).offset..RowOf(rs, i).offset + RowOf(rs, i).length] == Encode(rs[i])
  {
    hide Encode, EncodeAll, Scannable, Text;
    EncodeAllDrop(rs, i);
    ScanEncoded(rs[i], []);
    var o := |EncodeAll(rs[..i])|;
    assert EncodeAll(rs)[o..][..|Encode(rs[i])|] == Encode(rs[i]);
  }

  /** Copying the next decided row extends the copied records by it. */
  lemma CopyStep(rs: seq<Record>, s: seq<Row>, n: nat, now: int)
    requires AllScannable(rs) && n < |s| && RowsFrom(rs, s)
    ensures RowsFrom(rs, Select(s, n, now)) && RowsFrom(rs, Select(s, n + 1, now))
    ensures s[n].offset + s[n].length <= |EncodeAll(rs)|
    ensures EncodeAll(Pick(rs, Select(s, n + 1, now)))
         == EncodeAll(Pick(rs, Select(s, n, now)))
            + if EndsRun(s, n) && Live(s[n].op, s[n].expires, now)
              then EncodeAll(rs)[s[n].offset..s[n].offset + s[n].length] else []
  {
    hide Encode, EncodeAll, Scannable, Text, Live;
    SelectFrom(s, n, now);
    SelectFrom(s, n + 1, now);
    assert s[n] in s;
    RowBytes(rs, s[n].line);
    var before, after := Select(s, n, now), Select(s, n + 1, now);
    if EndsRun(s, n) && Live(s[n].op, s[n].expires, now) {
      assert Pick(rs, after) == Pick(rs, before) + [rs[s[n].line]];
      EncodeAllConcat(Pick(rs, before), [rs[s[n].line]]);
      EncodeAllOne(rs[s[n].line]);
    } else {
      assert after == before;
    }
  }

  /** The second loop: a row is decided when the next one, or the end, has been seen. */
  method CopySelected(file: seq<Byte>, sorted: seq<Row>, now: int, ghost rs: seq<Record>) returns (dest: seq<Byte>)
    requires file == EncodeAll(rs) && AllScannable(rs) && RowsFrom(rs, sorted)
    ensures RowsFrom(rs, Select(sorted, |sorted|, now))
    ensures dest == EncodeAll(Pick(rs, Select(sorted, |sorted|, now)))
  {
    hide EncodeAll, Scannable, RowsFrom, Live;
    dest := [];
    EncodeAllNil();
    assert RowsFrom(rs, Select(sorted, 0, now)) by { NoRows(rs); }
    assert Pick(rs, Select(sorted, 0, now)) == [];
    var previous: Option<Row> := None;
    var i := 0;
    while i < |sorted|
      invariant 0 <= i <= |sorted|
      invariant previous == if i == 0 then None else Some(sorted[i - 1])
      invariant var decided := if i == 0 then 0 else i - 1;
                RowsFrom(rs, Select(sorted, decided, now)) && dest == EncodeAll(Pick(rs, Select(sorted, decided, now)))
    {
      var current := sorted[i];
      if previous.Some? {
        CopyStep(rs, sorted, i - 1, now);
        if previous.value.key != current.key {
          dest := CopyRow(file, previous.value, now, dest);
        }
      }
      previous := Some(current);
      i := i + 1;
    }
    if previous.Some? {
      CopyStep(rs, sorted, |sorted| - 1, now);
      dest := CopyRow(file, previous.value, now, dest);
    }
  }

  lemma NoRows(rs: seq<Record>)
    ensures RowsFrom(rs, [])
  {
  }

  lemma SortedFrom(rs: seq<Record>)
    ensures RowsFrom(rs, Sort(Rows(rs)))
  {
    hide Sort;
    SortSorted(Rows(rs));
    forall x | x in Sort(Rows(rs)) ensures x.line < |rs| && x == RowOf(rs, x.line) {
      assert x in multiset(Sort(Rows(rs)));
      assert x in Rows(rs);
    }
  }

  /** `compress_binlog_file` on a complete log file; `Sort` stands for the external sort program. */
  method CompressBinlogFile(file: seq<Byte>, now: int, ghost rs: seq<Record>) returns (dest: seq<Byte>)
    requires file == EncodeAll(rs) && AllScannable(rs)
    ensures dest == EncodeAll(Compressed(rs, now))
  {
    hide EncodeAll, Scannable, Select, Sort;
    var rows := ScanRows(file, rs);
    SelectedFrom(rs, now);
    SortedFrom(rs);
    dest := CopySelected(file, Sort(rows), now, rs);
  }
}
