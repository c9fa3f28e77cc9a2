/** The log compressor: keep the last record of every key, unless it deletes or has expired. */
module Compress {
  import opened Bytes
  import opened Decimal
  import opened RecordCodec
  import opened Binlog
  import opened Replication
  import Lex
  import Base64
  import Base64Context

  // ---------- rows of the temporary file ----------

  /**
    One line of the temporary file: encoded key, expiry, operation and place of the record. The
    line number is not in the file; it says which line this is.
   */
  datatype Row = Row(key: seq<Byte>, expires: int, op: Byte, offset: nat, length: nat, line: nat)

  function Letters(): Base64.Alphabet {
    Base64.Alphabet(Base64Context.Letters(43, 47), 61, 0, [10])
  }

  function Text(k: FullKey): seq<Byte> { Base64.Encoded(Letters(), k, false) }

  /** The expiry is read through an `int` pointer into a zeroed time field, here and from the row again. */
  function RowOf(rs: seq<Record>, i: nat): Row
    requires i < |rs|
  {
    Row(Text(KeyOf(rs[i])), LowHalf(rs[i].expires), rs[i].op, |EncodeAll(rs[..i])|, RecordLength(rs[i]), i)
  }

  function Rows(rs: seq<Record>): (rows: seq<Row>)
    ensures |rows| == |rs|
  {
    seq(|rs|, i requires 0 <= i < |rs| => RowOf(rs, i))
  }

  /** A stable sort by key: a row goes behind all rows whose key is not larger. */
  function Insert(s: seq<Row>, r: Row): (t: seq<Row>)
    ensures |t| == |s| + 1
    decreases |s|
  {
    if s == [] || Lex.Less(r.key, s[0].key) then [r] + s else [s[0]] + Insert(s[1..], r)
  }

  function Sort(rows: seq<Row>): (t: seq<Row>)
    ensures |t| == |rows|
    decreases |rows|
  {
    if rows == [] then [] else Insert(Sort(rows[..|rows| - 1]), rows[|rows| - 1])
  }

  // ---------- selection ----------

  /** The row's record is copied: it sets a value that has not expired at `now`. */
  predicate Live(op: Byte, expires: int, now: int) {
    !((expires != 0 && expires < now) || op == SOURCE_DEL || op == REPLICA_DEL)
  }

  predicate EndsRun(s: seq<Row>, i: nat)
    requires i < |s|
  {
    i + 1 == |s| || s[i].key != s[i + 1].key
  }

  /** What has been copied when the first `n` sorted rows are decided. */
  function Select(s: seq<Row>, n: nat, now: int): (out: seq<Row>)
    requires n <= |s|
  {
    if n == 0 then []
    else Select(s, n - 1, now)
         + if EndsRun(s, n - 1) && Live(s[n - 1].op, s[n - 1].expires, now) then [s[n - 1]] else []
  }

  function Pick(rs: seq<Record>, rows: seq<Row>): (out: seq<Record>)
    requires RowsFrom(rs, rows)
    ensures |out| == |rows|
  {
    seq(|rows|, i requires 0 <= i < |rows| => assert rows[i] in rows; rs[rows[i].line])
  }

  /** Rows of these records, in any order and number. */
  predicate RowsFrom(rs: seq<Record>, rows: seq<Row>) {
    forall x :: x in rows ==> x.line < |rs| && x == RowOf(rs, x.line)
  }

  // ---------- order ----------

  predicate NotLess(a: Row, b: Row) { !Lex.Less(b.key, a.key) }

  ghost predicate Sorted(s: seq<Row>) {
    forall i, j :: 0 <= i < j < |s| ==> NotLess(s[i], s[j])
  }

  lemma NotLessTransitive(a: Row, b: Row, c: Row)
    requires NotLess(a, b) && NotLess(b, c)
    ensures NotLess(a, c)
  {
    Lex.Total(a.key, b.key);
    Lex.Total(b.key, c.key);
    if Lex.Less(c.key, a.key) {
      if Lex.Less(a.key, b.key) {
        Lex.Transitive(c.key, a.key, b.key);
      }
    }
  }

  lemma {:induction false} InsertElements(s: seq<Row>, r: Row)
    ensures multiset(Insert(s, r)) == multiset(s) + multiset{r}
    decreases |s|
  {
    hide Lex.Less;
    if s != [] && !Lex.Less(r.key, s[0].key) {
      InsertElements(s[1..], r);
      assert s == [s[0]] + s[1..];
    }
  }

  lemma {:induction false} InsertSorted(s: seq<Row>, r: Row)
    requires Sorted(s)
    ensures Sorted(Insert(s, r))
    decreases |s|
  {
    hide Lex.Less;
    var t := Insert(s, r);
    if s != [] {
      if Lex.Less(r.key, s[0].key) {
        Lex.Asymmetric(r.key, s[0].key);
        forall j | 0 < j < |t| ensures NotLess(t[0], t[j]) {
          if j > 1 {
            NotLessTransitive(r, s[0], s[j - 1]);
          }
        }
      } else {
        InsertSorted(s[1..], r);
        InsertElements(s[1..], r);
        forall j | 0 < j < |t| ensures NotLess(t[0], t[j]) {
          assert t[j] in multiset(Insert(s[1..], r));
          assert t[j] == r || t[j] in multiset(s[1..]);
        }
      }
    }
  }

  lemma {:induction false} SortSorted(rows: seq<Row>)
    ensures Sorted(Sort(rows)) && multiset(Sort(rows)) == multiset(rows)
    decreases |rows|
  {
    hide Insert;
    if rows != [] {
      var front := rows[..|rows| - 1];
      SortSorted(front);
      InsertSorted(Sort(front), rows[|rows| - 1]);
      InsertElements(Sort(front), rows[|rows| - 1]);
      assert rows == front + [rows[|rows| - 1]];
    }
  }

  // ---------- the last row of a key ----------

  function LastRow(rows: seq<Row>, key: seq<Byte>): (r: Option<Row>)
    ensures r.Some? ==> r.value in rows && r.value.key == key
    ensures r.None? ==> forall x :: x in rows ==> x.key != key
    decreases |rows|
  {
    if rows == [] then None
    else if rows[|rows| - 1].key == key then Some(rows[|rows| - 1])
    else LastRow(rows[..|rows| - 1], key)
  }

  lemma {:induction false} LastRowPrepend(x: Row, s: seq<Row>, key: seq<Byte>)
    ensures LastRow([x] + s, key)
         == if LastRow(s, key).Some? then LastRow(s, key) else if x.key == key then Some(x) else None
    decreases |s|
  {
    if s != [] {
      LastRowPrepend(x, s[..|s| - 1], key);
      assert ([x] + s)[..|s|] == [x] + s[..|s| - 1];
    } else {
      assert [x] + s == [x] && [x][..0] == [];
    }
  }

  /** Stability: an inserted row becomes the last of its key and disturbs no other. */
  lemma {:induction false} InsertLast(s: seq<Row>, r: Row, key: seq<Byte>)
    requires Sorted(s)
    ensures LastRow(Insert(s, r), key) == if r.key == key then Some(r) else LastRow(s, key)
    decreases |s|
  {
    hide Lex.Less;
    if s == [] {
      LastRowPrepend(r, [], key);
      assert [r] + s == [r] + [];
    } else if Lex.Less(r.key, s[0].key) {
      LastRowPrepend(r, s, key);
      if r.key == key && LastRow(s, key).Some? {
        var x := LastRow(s, key).value;
        assert x == s[0] || NotLess(s[0], x);
        Lex.Irreflexive(r.key);
        assert false;
      }
    } else {
      InsertLast(s[1..], r, key);
      LastRowPrepend(s[0], Insert(s[1..], r), key);
      LastRowPrepend(s[0], s[1..], key);
      assert s == [s[0]] + s[1..];
    }
  }

  lemma {:induction false} SortLast(rows: seq<Row>, key: seq<Byte>)
    ensures LastRow(Sort(rows), key) == LastRow(rows, key)
    decreases |rows|
  {
    hide Insert;
    if rows != [] {
      var front := rows[..|rows| - 1];
      SortLast(front, key);
      SortSorted(front);
      InsertLast(Sort(front), rows[|rows| - 1], key);
    }
  }

  // ---------- what the selection leaves ----------

  ghost predicate Increasing(s: seq<Row>) {
    forall i, j :: 0 <= i < j < |s| ==> Lex.Less(s[i].key, s[j].key)
  }

  lemma LessThenNotLess(a: Row, b: Row, c: Row)
    requires Lex.Less(a.key, b.key) && NotLess(b, c)
    ensures Lex.Less(a.key, c.key)
  {
    Lex.Total(b.key, c.key);
    if Lex.Less(b.key, c.key) {
      Lex.Transitive(a.key, b.key, c.key);
    }
  }

  lemma {:induction false} SelectIncreasing(s: seq<Row>, n: nat, now: int)
    requires Sorted(s) && n <= |s|
    ensures Increasing(Select(s, n, now))
    ensures n < |s| ==> forall x :: x in Select(s, n, now) ==> Lex.Less(x.key, s[n].key)
    decreases n
  {
    hide Lex.Less, Live;
    if n > 0 {
      SelectIncreasing(s, n - 1, now);
      if n < |s| {
        forall x | x in Select(s, n, now) ensures Lex.Less(x.key, s[n].key) {
          if x in Select(s, n - 1, now) {
            LessThenNotLess(x, s[n - 1], s[n]);
          } else {
            Lex.Total(s[n - 1].key, s[n].key);
          }
        }
      }
    }
  }

  function IfLive(r: Option<Row>, now: int): Option<Row> {
    if r.Some? && Live(r.value.op, r.value.expires, now) then r else None
  }

  /** No row of a key that starts at position n comes earlier. */
  lemma RunIsContiguous(s: seq<Row>, n: nat, key: seq<Byte>)
    requires Sorted(s) && 0 < n < |s| && s[n].key == key && s[n - 1].key != key
    ensures LastRow(s[..n], key) == None
  {
    if LastRow(s[..n], key).Some? {
      var x := LastRow(s[..n], key).value;
      var i :| 0 <= i < n && s[i] == x;
      assert NotLess(s[n - 1], s[n]) && NotLess(s[i], s[n - 1]);
      Lex.Total(s[n - 1].key, key);
      assert false;
    }
  }

  lemma LastRowAppend(s: seq<Row>, x: Row, key: seq<Byte>)
    ensures LastRow(s + [x], key) == if x.key == key then Some(x) else LastRow(s, key)
  {
  }

  lemma LastRowNil(key: seq<Byte>)
    ensures LastRow([], key) == None
  {
  }

  lemma {:induction false} SelectLastAt(s: seq<Row>, n: nat, now: int, key: seq<Byte>)
    requires Sorted(s) && n <= |s|
    ensures LastRow(Select(s, n, now), key)
         == if n < |s| && s[n].key == key then None else IfLive(LastRow(s[..n], key), now)
    decreases n
  {
    hide Lex.Less, Live, LastRow, Sorted;
    if n == 0 {
      LastRowNil(key);
      assert s[..0] == [];
    } else {
      SelectLastAt(s, n - 1, now, key);
      var x := s[n - 1];
      var before := Select(s, n - 1, now);
      LastRowAppend(before, x, key);
      LastRowAppend(s[..n - 1], x, key);
      assert s[..n] == s[..n - 1] + [x];
      assert before + [] == before;
      if x.key != key && n < |s| && s[n].key == key {
        RunIsContiguous(s, n, key);
      }
    }
  }

  lemma SelectLast(s: seq<Row>, now: int, key: seq<Byte>)
    requires Sorted(s)
    ensures LastRow(Select(s, |s|, now), key) == IfLive(LastRow(s, key), now)
  {
    SelectLastAt(s, |s|, now, key);
    assert s[..|s|] == s;
  }

  lemma {:induction false} SelectFrom(s: seq<Row>, n: nat, now: int)
    requires n <= |s|
    ensures forall x :: x in Select(s, n, now) ==> x in s && Live(x.op, x.expires, now)
  {
    if n > 0 {
      SelectFrom(s, n - 1, now);
    }
  }

  // ---------- records ----------

  function LastOf(rs: seq<Record>, k: FullKey): (r: Option<Record>)
    decreases |rs|
  {
    if rs == [] then None
    else if KeyOf(rs[|rs| - 1]) == k then Some(rs[|rs| - 1])
    else LastOf(rs[..|rs| - 1], k)
  }

  lemma TextNamesKey(j: FullKey, k: FullKey)
    ensures Text(j) == Text(k) <==> j == k
  {
    Base64Context.LettersWellFormed(43, 47, 61, 0);
    Base64.Injective(Letters(), j, k);
  }

  /** The last row of a key leads to the last record of it. */
  lemma {:induction false} LastRowPicks(rs: seq<Record>, rows: seq<Row>, k: FullKey)
    requires RowsFrom(rs, rows)
    ensures LastOf(Pick(rs, rows), k)
         == match LastRow(rows, Text(k)) case None => None case Some(x) => Some(rs[x.line])
    decreases |rows|
  {
    hide Text;
    if rows != [] {
      var front, x := rows[..|rows| - 1], rows[|rows| - 1];
      LastRowPicks(rs, front, k);
      assert Pick(rs, rows)[..|rows| - 1] == Pick(rs, front);
      TextNamesKey(KeyOf(rs[x.line]), k);
    }
  }

  function SelectedRows(rs: seq<Record>, now: int): seq<Row> {
    Select(Sort(Rows(rs)), |rs|, now)
  }

  lemma SelectedFrom(rs: seq<Record>, now: int)
    ensures RowsFrom(rs, SelectedRows(rs, now)) && Increasing(SelectedRows(rs, now))
    ensures forall x :: x in SelectedRows(rs, now) ==> Live(x.op, x.expires, now)
  {
    hide Lex.Less, Select, Sort, Live;
    SortSorted(Rows(rs));
    SelectIncreasing(Sort(Rows(rs)), |rs|, now);
    SelectFrom(Sort(Rows(rs)), |rs|, now);
    forall x | x in SelectedRows(rs, now) ensures x.line < |rs| && x == RowOf(rs, x.line) {
      assert x in multiset(Sort(Rows(rs)));
      assert x in Rows(rs);
    }
  }

  /** The compressed log, as records: what the compressor copies, in the order it copies it. */
  ghost function Compressed(rs: seq<Record>, now: int): seq<Record> {
    SelectedFrom(rs, now);
    Pick(rs, SelectedRows(rs, now))
  }

  predicate LiveRecord(r: Record, now: int) { Live(r.op, LowHalf(r.expires), now) }

  /** The heart of it: a key's last record survives if it is live, and otherwise nothing of it does. */
  lemma CompressedLast(rs: seq<Record>, now: int, k: FullKey)
    ensures LastOf(Compressed(rs, now), k)
         == if LastOf(rs, k).Some? && LiveRecord(LastOf(rs, k).value, now) then LastOf(rs, k) else None
  {
    hide Text, Sort, Select, Lex.Less, LastRow, LastOf;
    var rows := Rows(rs);
    SelectedFrom(rs, now);
    LastRowPicks(rs, SelectedRows(rs, now), k);
    SortSorted(rows);
    SelectLast(Sort(rows), now, Text(k));
    SortLast(rows, Text(k));
    assert RowsFrom(rs, rows);
    LastRowPicks(rs, rows, k);
    assert Pick(rs, rows) == rs;
  }

  // ---------- meaning ----------

  /** What the scan takes: the key may be empty here, and the time stamp is not looked at. */
  predicate Scannable(r: Record) { Plain(r) }

  predicate AllScannable(rs: seq<Record>) { forall i :: 0 <= i < |rs| ==> Scannable(rs[i]) }

  /** The value a record leaves behind, if a get can see it at time t. */
  function Seen(r: Option<Record>, t: int): Option<seq<Byte>> {
    if r.Some? && IsSet(r.value) && (r.value.expires == 0 || r.value.expires >= t) then Some(StoredValue(r.value))
    else None
  }

  function Look(st: Store, k: FullKey, t: int): Option<seq<Byte>> {
    if VisibleAt(st, k, t) then Some(st[k]) else None
  }

  /** Replay shows, for every key, its last record. */
  lemma {:induction false} ReplayShowsLast(rs: seq<Record>, k: FullKey, t: int)
    requires AllScannable(rs)
    ensures Look(Replay(rs), k, t) == Seen(LastOf(rs, k), t)
    ensures k in Replay(rs) ==> |Replay(rs)[k]| >= 4
    decreases |rs|
  {
    if rs != [] {
      var front, r := rs[..|rs| - 1], rs[|rs| - 1];
      ReplayShowsLast(front, k, t);
      if KeyOf(r) == k {
        assert Scannable(r);
        GetPutInt(r.expires, r.value);
      }
    }
  }

  lemma {:induction false} LastOfConcat(a: seq<Record>, b: seq<Record>, k: FullKey)
    ensures LastOf(a + b, k) == if LastOf(b, k).Some? then LastOf(b, k) else LastOf(a, k)
    decreases |b|
  {
    if b == [] {
      assert a + b == a;
    } else {
      LastOfConcat(a, b[..|b| - 1], k);
      assert (a + b)[..|a + b| - 1] == a + b[..|b| - 1];
    }
  }

  lemma CompressedScannable(rs: seq<Record>, now: int)
    requires AllScannable(rs)
    ensures AllScannable(Compressed(rs, now))
  {
    SelectedFrom(rs, now);
    var rows := SelectedRows(rs, now);
    forall i | 0 <= i < |rows| ensures Scannable(Compressed(rs, now)[i]) {
      assert rows[i] in rows;
      assert Scannable(rs[rows[i].line]);
    }
  }

  /** What is dropped no get can see; what is kept it can, unless the expiry is negative. */
  lemma LiveIsSeen(r: Record, now: int, t: int)
    requires ValidOp(r.op) && IsInt32(r.expires) && t >= now
    ensures !LiveRecord(r, now) ==> Seen(Some(r), t) == None
    ensures r.expires >= 0 ==> (LiveRecord(r, now) <==> Seen(Some(r), now) != None)
  {
  }

  /** Whatever `LastOf` finds is one of the records. */
  lemma {:induction false} LastOfIn(rs: seq<Record>, k: FullKey)
    ensures LastOf(rs, k).Some? ==> LastOf(rs, k).value in rs && KeyOf(LastOf(rs, k).value) == k
    decreases |rs|
  {
    if rs != [] {
      LastOfIn(rs[..|rs| - 1], k);
    }
  }

  /** What a get sees after the log `before` followed by the compressed file, key by key. */
  lemma CompressedLook(before: seq<Record>, rs: seq<Record>, now: int, k: FullKey, t: int)
    requires AllScannable(before) && AllScannable(rs) && t >= now
    ensures Look(Replay(before + Compressed(rs, now)), k, t)
         == (if LastOf(rs, k).Some? && LiveRecord(LastOf(rs, k).value, now) then Seen(LastOf(rs, k), t)
             else Look(Replay(before), k, t))
    ensures Look(Replay(before + rs), k, t)
         == (if LastOf(rs, k).Some? then Seen(LastOf(rs, k), t) else Look(Replay(before), k, t))
  {
    hide Look, Seen, LastOf, Replay, Compressed, Scannable;
    CompressedScannable(rs, now);
    ReplayShowsLast(before, k, t);
    ReplayShowsLast(before + rs, k, t);
    ReplayShowsLast(before + Compressed(rs, now), k, t);
    LastOfConcat(before, rs, k);
    LastOfConcat(before, Compressed(rs, now), k);
    CompressedLast(rs, now, k);
  }

  /**
    Meaning preserved: replaying the compressed file from an empty store shows, at any time not
    before the compression, exactly what replaying the original shows.
   */
  lemma CompressionPreserves(rs: seq<Record>, now: int, k: FullKey, t: int)
    requires AllScannable(rs) && t >= now
    ensures Look(Replay(Compressed(rs, now)), k, t) == Look(Replay(rs), k, t)
  {
    hide Replay, Compressed;
    CompressedLook([], rs, now, k, t);
    LastOfIn(rs, k);
    assert [] + rs == rs && [] + Compressed(rs, now) == Compressed(rs, now);
    assert Look(Replay([]), k, t) == None by { EmptyShowsNothing(k, t); }
    if LastOf(rs, k).Some? {
      LiveIsSeen(LastOf(rs, k).value, now, t);
    }
  }

  lemma EmptyShowsNothing(k: FullKey, t: int)
    ensures Look(Replay([]), k, t) == None
  {
  }

  /** The compressor drops the key: its last record in the file deletes it or has expired. */
  predicate Drops(rs: seq<Record>, now: int, k: FullKey) {
    LastOf(rs, k).Some? && !LiveRecord(LastOf(rs, k).value, now)
  }

  /**
    Compressing one file of a longer log, as the tool does, is only safe on its own: it keeps the
    meaning of the files before it and itself exactly when no key it drops is still visible in
    those earlier files. Otherwise the old value comes back.
   */
  lemma CompressionInPlaceExactly(before: seq<Record>, rs: seq<Record>, now: int, k: FullKey)
    requires AllScannable(before) && AllScannable(rs)
    ensures (forall t :: t >= now ==>
               Look(Replay(before + Compressed(rs, now)), k, t) == Look(Replay(before + rs), k, t))
            <==> !(Drops(rs, now, k) && VisibleAt(Replay(before), k, now))
  {
    hide Replay, Compressed, LastOf, Drops;
    forall t | t >= now
      ensures Look(Replay(before + Compressed(rs, now)), k, t) == Look(Replay(before + rs), k, t)
              <==> !Drops(rs, now, k) || !VisibleAt(Replay(before), k, t)
    {
      InPlaceAt(before, rs, now, k, t);
    }
    assert Look(Replay(before + Compressed(rs, now)), k, now) == Look(Replay(before + rs), k, now)
      <==> !Drops(rs, now, k) || !VisibleAt(Replay(before), k, now);
  }

  lemma InPlaceAt(before: seq<Record>, rs: seq<Record>, now: int, k: FullKey, t: int)
    requires AllScannable(before) && AllScannable(rs) && t >= now
    ensures Look(Replay(before + Compressed(rs, now)), k, t) == Look(Replay(before + rs), k, t)
            <==> !Drops(rs, now, k) || !VisibleAt(Replay(before), k, t)
  {
    hide Replay, Compressed, LastOf, Seen;
    CompressedLook(before, rs, now, k, t);
    LastOfIn(rs, k);
    if LastOf(rs, k).Some? {
      LiveIsSeen(LastOf(rs, k).value, now, t);
    }
  }

  /** The failing family is real: a set in one file, its delete in the next. */
  lemma CompressionResurrects(set0: Record, del: Record, now: int)
    requires Scannable(set0) && Scannable(del) && IsSet(set0) && !IsSet(del)
    requires KeyOf(set0) == KeyOf(del) && set0.expires == 0
    ensures VisibleAt(Replay([set0] + Compressed([del], now)), KeyOf(set0), now)
    ensures !VisibleAt(Replay([set0] + [del]), KeyOf(set0), now)
  {
    hide Compressed;
    CompressedLook([set0], [del], now, KeyOf(set0), now);
    assert [del][..0] == [] && [set0][..0] == [];
    ReplayShowsLast([set0], KeyOf(set0), now);
  }

  /** Every key appears at most once. */
  lemma CompressedUnique(rs: seq<Record>, now: int, i: nat, j: nat)
    requires i < j < |Compressed(rs, now)|
    ensures KeyOf(Compressed(rs, now)[i]) != KeyOf(Compressed(rs, now)[j])
  {
    hide Text, Select, Sort;
    SelectedFrom(rs, now);
    var rows := SelectedRows(rs, now);
    assert rows[i] in rows && rows[j] in rows;
    assert Lex.Less(rows[i].key, rows[j].key);
    Lex.Irreflexive(rows[i].key);
  }

  // ---------- idempotence ----------

  lemma {:induction false} InsertAtEnd(s: seq<Row>, r: Row)
    requires forall i :: 0 <= i < |s| ==> Lex.Less(s[i].key, r.key)
    ensures Insert(s, r) == s + [r]
    decreases |s|
  {
    hide Lex.Less;
    if s != [] {
      Lex.Asymmetric(s[0].key, r.key);
      InsertAtEnd(s[1..], r);
    }
  }

  lemma {:induction false} SortOfIncreasing(s: seq<Row>)
    requires Increasing(s)
    ensures Sort(s) == s
    decreases |s|
  {
    hide Lex.Less, Insert;
    if s != [] {
      SortOfIncreasing(s[..|s| - 1]);
      InsertAtEnd(s[..|s| - 1], s[|s| - 1]);
    }
  }

  lemma {:induction false} SelectAll(s: seq<Row>, n: nat, now: int)
    requires Increasing(s) && n <= |s| && forall i :: 0 <= i < |s| ==> Live(s[i].op, s[i].expires, now)
    ensures Select(s, n, now) == s[..n]
    decreases n
  {
    hide Lex.Less, Live;
    if n > 0 {
      SelectAll(s, n - 1, now);
      if n < |s| {
        assert Lex.Less(s[n - 1].key, s[n].key);
        Lex.Irreflexive(s[n].key);
      }
    }
  }

  /** Compressing again at the same time changes nothing. */
  lemma Idempotent(rs: seq<Record>, now: int)
    ensures Compressed(Compressed(rs, now), now) == Compressed(rs, now)
  {
    hide Text, Select, Sort, Live, Lex.Less;
    SelectedFrom(rs, now);
    var rows, cs := SelectedRows(rs, now), Compressed(rs, now);
    var again := Rows(cs);
    forall i | 0 <= i < |cs|
      ensures again[i].key == rows[i].key && again[i].op == rows[i].op && again[i].expires == rows[i].expires
    {
      assert rows[i] in rows;
    }
    assert Increasing(again);
    SortOfIncreasing(again);
    forall i | 0 <= i < |again| ensures Live(again[i].op, again[i].expires, now) {
      assert rows[i] in rows;
    }
    SelectAll(again, |again|, now);
    assert again[..|again|] == again;
    assert Pick(cs, again) == cs;
  }
}
