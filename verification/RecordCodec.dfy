/** The binlog record: its text form and the parser that reads it back. */
module RecordCodec {
  import opened Bytes
  import opened Decimal

  const SOURCE_SET: Byte := 83  // 'S'
  const SOURCE_DEL: Byte := 68  // 'D'
  const REPLICA_SET: Byte := 115  // 's'
  const REPLICA_DEL: Byte := 100  // 'd'
  const NEWLINE: Byte := 10

  const MAX_NAMESPACE_LEN := 64
  const MAX_OBJECT_ID_LEN := 128
  const MAX_SUB_KEY_LEN := 128

  const LIST_KEY: seq<Byte> := [42]  // the key of a sub-key list, which clients may not write

  const FIX_FIELDS_LENGTH := 4 * 10 + 3 * 4 + 1 + 8 * 1

  datatype KeyInfo = KeyInfo(ns: seq<Byte>, objId: seq<Byte>, key: seq<Byte>)

  datatype Record = Record(
    timestamp: int, op: Byte, keyHash: int, expires: int, info: KeyInfo, value: seq<Byte>)

  predicate ValidOp(op: Byte) {
    op == SOURCE_SET || op == SOURCE_DEL || op == REPLICA_SET || op == REPLICA_DEL
  }

  predicate IsSource(r: Record) { r.op == SOURCE_SET || r.op == SOURCE_DEL }

  predicate IsSet(r: Record) { r.op == SOURCE_SET || r.op == REPLICA_SET }

  /** The C types of the fields; no caller can pass anything wider. */
  predicate CRecord(r: Record) {
    && IsInt32(r.timestamp) && IsInt32(r.keyHash) && IsInt32(r.expires)
    && |r.value| <= INT32_MAX
    && |r.info.ns| <= MAX_NAMESPACE_LEN
    && |r.info.objId| <= MAX_OBJECT_ID_LEN
    && |r.info.key| <= MAX_SUB_KEY_LEN
  }

  /** A number that needs eleven characters. */
  predicate Wide(n: int) { n <= -1_000_000_000 }

  /** A record whose header takes its 61 bytes. */
  predicate Plain(r: Record) {
    CRecord(r) && ValidOp(r.op) && !Wide(r.timestamp) && !Wide(r.keyHash) && !Wide(r.expires)
  }

  /** What a record must satisfy for the reader to return it. */
  predicate Readable(r: Record) { Plain(r) && r.timestamp != 0 && |r.info.key| > 0 }

  /** The low half of a zeroed 64-bit time field, written through an `int` pointer. */
  function LowHalf(n: int): nat { n % 0x1_0000_0000 }

  /** The record as the reader returns it: a negative time comes back as a large one. */
  function AsRead(r: Record): Record {
    r.(timestamp := LowHalf(r.timestamp), expires := LowHalf(r.expires))
  }

  /** What a record must satisfy to come back unchanged. */
  predicate Loggable(r: Record) { Readable(r) && r.timestamp > 0 && r.expires >= 0 }

  function RecordLength(r: Record): nat {
    FIX_FIELDS_LENGTH + |r.info.ns| + 1 + |r.info.objId| + 1 + |r.info.key| + 1 + |r.value| + 1
  }

  // ---------- writing ----------

  function ValueLengthField(r: Record): seq<Byte> { ShowPadded(10, |r.value|) + [SPACE] }

  function KeyLengthFields(r: Record): seq<Byte> {
    ShowPadded(4, |r.info.ns|) + ([SPACE] + (ShowPadded(4, |r.info.objId|) + ([SPACE]
      + (ShowPadded(4, |r.info.key|) + ([SPACE] + ValueLengthField(r))))))
  }

  /** The `sprintf` of the eight fixed fields. */
  function Header(r: Record): seq<Byte> {
    ShowPadded(10, r.timestamp) + ([SPACE, r.op, SPACE] + (ShowPadded(10, r.keyHash)
      + ([SPACE] + (ShowPadded(10, r.expires) + ([SPACE] + KeyLengthFields(r))))))
  }

  /** `PACK_FULL_KEY_INFO` */
  function PackKeyInfo(k: KeyInfo): (s: seq<Byte>)
    ensures |s| == |k.ns| + |k.objId| + |k.key| + 3
  {
    k.ns + [SPACE] + k.objId + [SPACE] + k.key + [SPACE]
  }

  function Encode(r: Record): (s: seq<Byte>) {
    Header(r) + PackKeyInfo(r.info) + r.value + [NEWLINE]
  }

  function EncodeAll(rs: seq<Record>): (s: seq<Byte>) {
    if rs == [] then [] else Encode(rs[0]) + EncodeAll(rs[1..])
  }

  // ---------- reading ----------

  datatype Parsed =
    | Complete(record: Record, length: nat)
    | NoEntry  // ENOENT: the bytes stop inside a record
    | Invalid  // EINVAL

  datatype Fields = Fields(
    timestamp: int, op: Byte, keyHash: int, expires: int, nsLen: int, objLen: int, keyLen: int, valueLen: int)

  /** A NUL ends the text `sscanf` sees. */
  function CString(s: seq<Byte>): (r: seq<Byte>) {
    if s == [] || s[0] == 0 then [] else [s[0]] + CString(s[1..])
  }

  datatype Lengths = Lengths(nsLen: int, objLen: int, keyLen: int, valueLen: int)

  function ScanLengths(s: seq<Byte>): Option<Lengths> {
    match ScanInt(s, 4)
    case None => None
    case Some((n, s1)) =>
    match ScanInt(s1, 4)
    case None => None
    case Some((o, s2)) =>
    match ScanInt(s2, 4)
    case None => None
    case Some((k, s3)) =>
    match ScanInt(s3, 10)
    case None => None
    case Some((v, _)) => Some(Lengths(n, o, k, v))
  }

  /** The `sscanf` of the eight fixed fields; None when fewer than eight items are found. */
  function ScanFields(s: seq<Byte>): Option<Fields> {
    match ScanInt(s, 10)
    case None => None
    case Some((ts, s1)) =>
      var s2 := SkipSpaces(s1);
      if s2 == [] then None
      else
        match ScanInt(s2[1..], 10)
        case None => None
        case Some((hash, s3)) =>
        match ScanInt(s3, 10)
        case None => None
        case Some((expires, s4)) =>
        match ScanLengths(s4)
        case None => None
        case Some(l) =>
          Some(Fields(LowHalf(ts), s2[0], hash, LowHalf(expires), l.nsLen, l.objLen, l.keyLen, l.valueLen))
  }

  predicate ValidFields(f: Fields) {
    && f.timestamp > 0
    && ValidOp(f.op)
    && 0 <= f.nsLen <= MAX_NAMESPACE_LEN
    && 0 <= f.objLen <= MAX_OBJECT_ID_LEN
    && 0 < f.keyLen <= MAX_SUB_KEY_LEN
    && f.valueLen >= 0
  }

  /** The three `read` calls behind the header, given the bytes that follow it. */
  function ParseBody(f: Fields, data: seq<Byte>): (p: Parsed)
    requires ValidFields(f)
    ensures p.Complete? ==> p.length <= FIX_FIELDS_LENGTH + |data|
  {
    var fullKeyLen := f.nsLen + 1 + f.objLen + 1 + f.keyLen + 1;
    if |data| < fullKeyLen then NoEntry
    else if |data| < fullKeyLen + f.valueLen + 1 then NoEntry
    else if data[fullKeyLen + f.valueLen] != NEWLINE then Invalid
    else
      var ns := data[..f.nsLen];
      var objId := data[f.nsLen + 1..f.nsLen + 1 + f.objLen];
      var key := data[f.nsLen + 1 + f.objLen + 1..fullKeyLen - 1];
      var value := data[fullKeyLen..fullKeyLen + f.valueLen];
      Complete(Record(f.timestamp, f.op, f.keyHash, f.expires, KeyInfo(ns, objId, key), value),
               FIX_FIELDS_LENGTH + fullKeyLen + f.valueLen + 1)
  }

  /** One record out of the bytes from the file position to the end of the file. */
  function Parse(data: seq<Byte>): (p: Parsed)
    ensures p.Complete? ==> 0 < p.length <= |data|
  {
    if |data| < FIX_FIELDS_LENGTH then NoEntry
    else
      match ScanFields(CString(data[..FIX_FIELDS_LENGTH]))
      case None => Invalid
      case Some(f) => if ValidFields(f) then ParseBody(f, data[FIX_FIELDS_LENGTH..]) else Invalid
  }

  // ---------- the header reads back ----------

  predicate NoNul(s: seq<Byte>) { forall i :: 0 <= i < |s| ==> s[i] != 0 }

  lemma {:induction false} CStringOfText(s: seq<Byte>)
    requires NoNul(s)
    ensures CString(s) == s
  {
    if s != [] {
      CStringOfText(s[1..]);
    }
  }

  lemma FieldIsText(width: nat, n: int, s: seq<Byte>, rest: seq<Byte>)
    requires NoNul(s) && NoNul(rest)
    ensures NoNul(ShowPadded(width, n) + (s + rest))
  {
  }

  lemma HeaderIsText(r: Record)
    requires r.op != 0
    ensures NoNul(Header(r))
  {
    hide ShowPadded, NoNul;
    var blank := [SPACE];
    assert NoNul(blank) && NoNul([SPACE, r.op, SPACE]) && NoNul([]) by { ShortTexts(r.op); }
    FieldIsText(10, |r.value|, blank, []);
    assert ValueLengthField(r) == ShowPadded(10, |r.value|) + (blank + []);
    FieldIsText(4, |r.info.key|, blank, ValueLengthField(r));
    var s1 := ShowPadded(4, |r.info.key|) + (blank + ValueLengthField(r));
    FieldIsText(4, |r.info.objId|, blank, s1);
    FieldIsText(4, |r.info.ns|, blank, ShowPadded(4, |r.info.objId|) + (blank + s1));
    FieldIsText(10, r.expires, blank, KeyLengthFields(r));
    var s2 := ShowPadded(10, r.expires) + (blank + KeyLengthFields(r));
    FieldIsText(10, r.keyHash, blank, s2);
    FieldIsText(10, r.timestamp, [SPACE, r.op, SPACE], ShowPadded(10, r.keyHash) + (blank + s2));
  }

  lemma ShortTexts(op: Byte)
    requires op != 0
    ensures NoNul([SPACE]) && NoNul([SPACE, op, SPACE]) && NoNul([])
  {
  }

  lemma NumberWidth(n: int)
    ensures n < 10 * Pow10(3) && n >= 0 ==> |Show(n)| <= 4
    ensures IsInt32(n) ==> (|Show(n)| <= 10 <==> !Wide(n))
    ensures IsInt32(n) ==> |Show(n)| <= 11
  {
    assert Pow10(0) == 1 && Pow10(1) == 10 && Pow10(2) == 100 && Pow10(3) == 1000 && Pow10(4) == 10_000;
    assert Pow10(5) == 100_000 && Pow10(6) == 1_000_000 && Pow10(7) == 10_000_000 && Pow10(8) == 100_000_000;
    assert Pow10(9) == 1_000_000_000 && Pow10(10) == 10_000_000_000;
    if n >= 0 {
      DigitsWidth(n, 4);
      DigitsWidth(n, 10);
    } else {
      DigitsWidth(-n, 9);
      DigitsWidth(-n, 10);
    }
  }

  /** One field of the scan: a shown number, its separator and whatever follows. */
  lemma ScanField(width: nat, n: int, rest: seq<Byte>)
    requires IsInt32(n) && |Show(n)| <= width
    ensures ScanInt(ShowPadded(width, n) + ([SPACE] + rest), width) == Some((n, [SPACE] + rest))
  {
    ScanShown(width, width, n, [SPACE] + rest);
  }

  /** A separating blank does not change what the next number scan reads. */
  lemma ScanPastBlank(s: seq<Byte>, width: nat)
    ensures ScanInt([SPACE] + s, width) == ScanInt(s, width)
  {
  }

  lemma ScanLengthFields(r: Record)
    requires CRecord(r)
    ensures ScanLengths([SPACE] + KeyLengthFields(r))
         == Some(Lengths(|r.info.ns|, |r.info.objId|, |r.info.key|, |r.value|))
  {
    hide ScanInt, ShowPadded;
    NumberWidth(|r.info.ns|);
    NumberWidth(|r.info.objId|);
    NumberWidth(|r.info.key|);
    NumberWidth(|r.value|);
    var v := ValueLengthField(r);
    var k := ShowPadded(4, |r.info.key|) + ([SPACE] + v);
    var o := ShowPadded(4, |r.info.objId|) + ([SPACE] + k);
    assert v == ShowPadded(10, |r.value|) + ([SPACE] + []);
    ScanPastBlank(KeyLengthFields(r), 4);
    ScanField(4, |r.info.ns|, o);
    ScanPastBlank(o, 4);
    ScanField(4, |r.info.objId|, k);
    ScanPastBlank(k, 4);
    ScanField(4, |r.info.key|, v);
    ScanPastBlank(v, 10);
    ScanField(10, |r.value|, []);
  }

  function FieldsOf(r: Record): Fields {
    Fields(r.timestamp, r.op, r.keyHash, r.expires, |r.info.ns|, |r.info.objId|, |r.info.key|, |r.value|)
  }

  /** How many characters the header takes beyond its computed length. */
  function Excess(r: Record): (n: nat)
    ensures n == 0 <==> !Wide(r.timestamp) && !Wide(r.keyHash) && !Wide(r.expires)
  {
    (if Wide(r.timestamp) then 1 else 0) + (if Wide(r.keyHash) then 1 else 0) + if Wide(r.expires) then 1 else 0
  }

  lemma HeaderLength(r: Record)
    requires CRecord(r)
    ensures |Header(r)| == FIX_FIELDS_LENGTH + Excess(r)
  {
    hide Show;
    NumberWidth(r.timestamp);
    NumberWidth(r.keyHash);
    NumberWidth(r.expires);
    NumberWidth(|r.info.ns|);
    NumberWidth(|r.info.objId|);
    NumberWidth(|r.info.key|);
    NumberWidth(|r.value|);
  }

  /** `CALC_RECORD_LENGTH` is what a record takes, but for one character for each number that is too wide. */
  lemma EncodedLength(r: Record)
    requires CRecord(r)
    ensures |Encode(r)| == RecordLength(r) + Excess(r)
  {
    hide Header;
    HeaderLength(r);
  }

  lemma ScanHeader(r: Record)
    requires Plain(r)
    ensures ScanFields(Header(r)) == Some(FieldsOf(AsRead(r)))
  {
    hide ScanInt, ScanLengths, ShowPadded, KeyLengthFields;
    NumberWidth(r.timestamp);
    NumberWidth(r.keyHash);
    NumberWidth(r.expires);
    ScanLengthFields(r);
    var e := ShowPadded(10, r.expires) + ([SPACE] + KeyLengthFields(r));
    var h := ShowPadded(10, r.keyHash) + ([SPACE] + e);
    ScanField(10, r.timestamp, [r.op, SPACE] + h);
    assert [SPACE, r.op, SPACE] + h == [SPACE] + ([r.op, SPACE] + h);
    SkipsSpaces(1, [r.op, SPACE] + h);
    assert Spaces(1) == [SPACE];
    assert ([r.op, SPACE] + h)[1..] == [SPACE] + h;
    ScanPastBlank(h, 10);
    ScanField(10, r.keyHash, e);
    ScanPastBlank(e, 10);
    ScanField(10, r.expires, KeyLengthFields(r));
  }

  // ---------- reading what was written ----------

  /** Splitting the packed key and value again, given the right lengths. */
  lemma ParseEncodedBody(r: Record, rest: seq<Byte>)
    requires Readable(r)
    ensures ValidFields(FieldsOf(AsRead(r)))
    ensures ParseBody(FieldsOf(AsRead(r)), PackKeyInfo(r.info) + r.value + [NEWLINE] + rest)
         == Complete(AsRead(r), RecordLength(r))
  {
  }

  /** Header and body of an encoded record with 61 bytes of header. */
  /** The fields of the header at their places: `%10d %c %10d %10d %4d %4d %4d %10d ` */
  lemma HeaderLayout(r: Record)
    requires Plain(r)
    ensures var s := Header(r);
            && |s| == 61
            && s[..10] == ShowPadded(10, r.timestamp) && s[10] == 32 && s[11] == r.op && s[12] == 32
            && s[13..23] == ShowPadded(10, r.keyHash) && s[23] == 32
            && s[24..34] == ShowPadded(10, r.expires) && s[34] == 32
            && s[35..39] == ShowPadded(4, |r.info.ns|) && s[39] == 32
            && s[40..44] == ShowPadded(4, |r.info.objId|) && s[44] == 32
            && s[45..49] == ShowPadded(4, |r.info.key|) && s[49] == 32
            && s[50..60] == ShowPadded(10, |r.value|) && s[60] == 32
  {
    hide Show, ShowPadded, KeyLengthFields;
    FieldWidths(r);
    LengthsLayout(r);
    FrontLayout(ShowPadded(10, r.timestamp), r.op, ShowPadded(10, r.keyHash), ShowPadded(10, r.expires),
                KeyLengthFields(r));
  }

  lemma FrontLayout(time: seq<Byte>, op: Byte, hash: seq<Byte>, expires: seq<Byte>, t: seq<Byte>)
    requires |time| == |hash| == |expires| == 10 && |t| == 26
    ensures var s := time + ([SPACE, op, SPACE] + (hash + ([SPACE] + (expires + ([SPACE] + t)))));
            && |s| == 61 && s[..10] == time && s[10] == 32 && s[11] == op && s[12] == 32
            && s[13..23] == hash && s[23] == 32 && s[24..34] == expires && s[34] == 32
            && s[35..39] == t[..4] && s[39] == t[4] && s[40..44] == t[5..9] && s[44] == t[9]
            && s[45..49] == t[10..14] && s[49] == t[14] && s[50..60] == t[15..25] && s[60] == t[25]
  {
    var s := time + ([SPACE, op, SPACE] + (hash + ([SPACE] + (expires + ([SPACE] + t)))));
    assert s[35..] == t;
  }

  lemma LengthsLayout(r: Record)
    requires Plain(r)
    ensures var t := KeyLengthFields(r);
            && |t| == 26
            && t[..4] == ShowPadded(4, |r.info.ns|) && t[4] == 32
            && t[5..9] == ShowPadded(4, |r.info.objId|) && t[9] == 32
            && t[10..14] == ShowPadded(4, |r.info.key|) && t[14] == 32
            && t[15..25] == ShowPadded(10, |r.value|) && t[25] == 32
  {
    hide Show, ShowPadded;
    FieldWidths(r);
  }

  lemma FieldWidths(r: Record)
    requires Plain(r)
    ensures |ShowPadded(10, r.timestamp)| == |ShowPadded(10, r.keyHash)| == |ShowPadded(10, r.expires)| == 10
    ensures |ShowPadded(4, |r.info.ns|)| == |ShowPadded(4, |r.info.objId|)| == |ShowPadded(4, |r.info.key|)| == 4
    ensures |ShowPadded(10, |r.value|)| == 10
  {
    hide Show;
    NumberWidth(r.timestamp);
    NumberWidth(r.keyHash);
    NumberWidth(r.expires);
    NumberWidth(|r.value|);
    NumberWidth(|r.info.ns|);
    NumberWidth(|r.info.objId|);
    NumberWidth(|r.info.key|);
  }

  /** Behind the header: the parts of the key, each with a space behind it, the value and a newline. */
  lemma BodyLayout(r: Record)
    ensures var s := Encode(r)[|Header(r)|..];
            var a := |r.info.ns|;
            var b := a + 1 + |r.info.objId|;
            var c := b + 1 + |r.info.key|;
            && |s| == c + 1 + |r.value| + 1
            && s[..a] == r.info.ns && s[a] == 32 && s[a + 1..b] == r.info.objId && s[b] == 32
            && s[b + 1..c] == r.info.key && s[c] == 32
            && s[c + 1..|s| - 1] == r.value && s[|s| - 1] == 10
  {
    hide Header;
    var s := Encode(r)[|Header(r)|..];
    assert s == PackKeyInfo(r.info) + r.value + [NEWLINE];
  }

  lemma PlainParts(r: Record, rest: seq<Byte>)
    requires Plain(r)
    ensures |Encode(r)| == RecordLength(r) && FIX_FIELDS_LENGTH <= |Encode(r)|
    ensures (Encode(r) + rest)[FIX_FIELDS_LENGTH..] == PackKeyInfo(r.info) + r.value + [NEWLINE] + rest
    ensures Encode(r)[..FIX_FIELDS_LENGTH] == (Encode(r) + rest)[..FIX_FIELDS_LENGTH]
    ensures ScanFields(CString(Encode(r)[..FIX_FIELDS_LENGTH])) == Some(FieldsOf(AsRead(r)))
  {
    hide ScanFields, Header;
    HeaderLength(r);
    ScanHeader(r);
    HeaderIsText(r);
    CStringOfText(Header(r));
    assert Encode(r) + rest == Header(r) + (PackKeyInfo(r.info) + r.value + [NEWLINE] + rest);
    assert Encode(r)[..FIX_FIELDS_LENGTH] == Header(r);
  }

  /** Reading an encoded record returns it and consumes exactly its computed length. */
  lemma RoundTrip(r: Record, rest: seq<Byte>)
    requires Readable(r)
    ensures |Encode(r)| == RecordLength(r)
    ensures Parse(Encode(r) + rest) == Complete(AsRead(r), RecordLength(r))
    ensures Loggable(r) ==> AsRead(r) == r
  {
    hide ScanFields, ParseBody, Encode, CString, PackKeyInfo;
    PlainParts(r, rest);
    ParseEncodedBody(r, rest);
  }

  /** A record cut short anywhere reads as "no entry yet", never as a wrong record or an error. */
  lemma Truncated(r: Record, cut: nat)
    requires Readable(r)
    requires cut < |Encode(r)|
    ensures Parse(Encode(r)[..cut]) == NoEntry
  {
    hide ScanFields, Encode, CString;
    PlainParts(r, []);
    ParseEncodedBody(r, []);
    if cut >= FIX_FIELDS_LENGTH {
      assert Encode(r)[..cut][..FIX_FIELDS_LENGTH] == Encode(r)[..FIX_FIELDS_LENGTH];
    }
  }

  // ---------- numbers that are too wide ----------

  lemma {:induction false} ValueOfLeadingDigits(n: nat)
    requires n >= 10
    ensures Digits(n)[..|Digits(n)| - 1] == Digits(n / 10)
    ensures DigitsValue(Digits(n)[..|Digits(n)| - 1]) == n / 10
  {
    ValueOfDigits(n / 10);
  }

  lemma LastDigit(n: nat)
    requires n >= 10
    ensures Digits(n)[|Digits(n)| - 1..] == Show(n % 10)
  {
  }

  lemma ScanLeadingDigits(n: nat, rest: seq<Byte>)
    requires 1_000_000_000 <= n <= 0x8000_0000
    ensures ScanMagnitude(Digits(n) + rest, 9, true) == Some((-(n as int / 10), Show(n % 10) + rest))
  {
    hide Digits, Show, ScanMagnitude, DigitsValue, ToInt32;
    NumberWidth(-(n as int));
    assert |Digits(n)| == 10 by { ShownNegative(n); }
    LastDigit(n);
    ValueOfLeadingDigits(n);
    ScanCut(Digits(n), 9, true, rest);
  }

  lemma ShownNegative(n: nat)
    requires n > 0
    ensures |Show(-(n as int))| == 1 + |Digits(n)|
  {
  }

  /** A negative number is a sign and digits. */
  lemma ScanNegative(n: int, rest: seq<Byte>, width: nat)
    requires n < 0 && width > 0
    ensures ScanNumber(Show(n) + rest, width) == ScanMagnitude(Digits(-n) + rest, width - 1, true)
    ensures SkipSpaces(Show(n) + rest) == Show(n) + rest
  {
    hide ScanMagnitude, Digits;
    var text := Show(n) + rest;
    assert text[0] == MINUS && text[1..] == Digits(-n) + rest;
  }

  /** An eleven-character number loses its last digit to the field behind it. */
  lemma ScanTooWide(n: int, rest: seq<Byte>)
    requires IsInt32(n) && Wide(n)
    ensures ScanInt([SPACE] + (Show(n) + rest), 10) == Some((-(-n / 10), Show(-n % 10) + rest))
  {
    hide ScanMagnitude, Show, ToInt32, Digits, ScanNumber;
    ScanPastBlank(Show(n) + rest, 10);
    ScanNegative(n, rest, 10);
    ScanLeadingDigits(-n, rest);
  }

  lemma OneDigit(n: nat)
    requires n < 10
    ensures |Show(n)| == 1 && ShowPadded(1, n) == Show(n)
  {
  }

  /** A single digit that is left over from a number too wide is read as the next number. */
  lemma ScanStrayDigit(digit: nat, tail: seq<Byte>)
    requires digit < 10
    ensures ScanInt(Show(digit) + ([SPACE] + tail), 10) == Some((digit, [SPACE] + tail))
    ensures ScanInt(Show(digit) + ([SPACE] + tail), 4) == Some((digit, [SPACE] + tail))
  {
    hide ScanInt, Show;
    OneDigit(digit);
    ScanShown(1, 10, digit, [SPACE] + tail);
    ScanShown(1, 4, digit, [SPACE] + tail);
  }

  /** The scan behind time stamp and operation. */
  lemma ScanFront(timestamp: int, op: Byte, h: seq<Byte>)
    requires IsInt32(timestamp) && !Wide(timestamp) && ValidOp(op)
    ensures var s := ShowPadded(10, timestamp) + ([SPACE, op, SPACE] + h);
            && ScanInt(s, 10) == Some((timestamp, [SPACE] + ([op, SPACE] + h)))
            && SkipSpaces([SPACE] + ([op, SPACE] + h)) == [op, SPACE] + h
            && ([op, SPACE] + h)[1..] == [SPACE] + h
  {
    hide ScanInt;
    NumberWidth(timestamp);
    ScanField(10, timestamp, [op, SPACE] + h);
    assert [SPACE, op, SPACE] + h == [SPACE] + ([op, SPACE] + h);
    SkipsSpaces(1, [op, SPACE] + h);
    assert Spaces(1) == [SPACE];
  }

  /** A wide key hash: its last digit is read as the expiry, and every later number moves up by one field. */
  lemma ScanWideHash(r: Record, tail: seq<Byte>)
    requires CRecord(r) && !Wide(r.timestamp) && ValidOp(r.op) && Wide(r.keyHash)
    ensures ScanFields(ShowPadded(10, r.timestamp) + ([SPACE, r.op, SPACE] + (Show(r.keyHash) + ([SPACE] + tail))))
         == match ScanLengths([SPACE] + tail)
            case None => None
            case Some(l) => Some(Fields(LowHalf(r.timestamp), r.op, -(-r.keyHash / 10), -r.keyHash % 10,
                                        l.nsLen, l.objLen, l.keyLen, l.valueLen))
  {
    hide ScanInt, ScanLengths, Show, ShowPadded;
    ScanFront(r.timestamp, r.op, Show(r.keyHash) + ([SPACE] + tail));
    ScanTooWide(r.keyHash, [SPACE] + tail);
    ScanStrayDigit(-r.keyHash % 10, tail);
  }

  /** What is left of the length fields in the 61 bytes of a header one character too long. */
  function CutLengthFields(r: Record): seq<Byte> {
    ShowPadded(4, |r.info.ns|) + ([SPACE] + (ShowPadded(4, |r.info.objId|) + ([SPACE]
      + (ShowPadded(4, |r.info.key|) + ([SPACE] + ShowPadded(10, |r.value|))))))
  }

  function CutTail(r: Record): seq<Byte> { ShowPadded(10, r.expires) + ([SPACE] + CutLengthFields(r)) }

  lemma CutWideHeader(r: Record)
    requires CRecord(r) && Excess(r) == 1
    ensures Header(r) == ShowPadded(10, r.timestamp)
              + ([SPACE, r.op, SPACE] + (ShowPadded(10, r.keyHash) + ([SPACE] + CutTail(r)))) + [SPACE]
    ensures |Header(r)| == FIX_FIELDS_LENGTH + 1
  {
    hide Show, ShowPadded;
    HeaderLength(r);
    assert KeyLengthFields(r) == CutLengthFields(r) + [SPACE];
    assert Header(r) == ShowPadded(10, r.timestamp)
              + ([SPACE, r.op, SPACE] + (ShowPadded(10, r.keyHash) + ([SPACE] + CutTail(r)))) + [SPACE];
  }

  /** The expiry, read as a namespace length of at most four characters. */
  lemma ScanExpiry(e: int, rest: seq<Byte>)
    requires IsInt32(e)
    ensures ScanInt([SPACE] + (ShowPadded(10, e) + ([SPACE] + rest)), 4).Some?
    ensures 0 <= e <= MAX_NAMESPACE_LEN ==>
              ScanInt([SPACE] + (ShowPadded(10, e) + ([SPACE] + rest)), 4) == Some((e, [SPACE] + rest))
    ensures e > MAX_NAMESPACE_LEN ==>
              ScanInt([SPACE] + (ShowPadded(10, e) + ([SPACE] + rest)), 4).value.0 > MAX_NAMESPACE_LEN
    ensures e < 0 ==> ScanInt([SPACE] + (ShowPadded(10, e) + ([SPACE] + rest)), 4).value.0 < 0
  {
    hide ScanInt;
    NumberWidth(e);
    var behind := [SPACE] + rest;
    ScanPastBlank(ShowPadded(10, e) + behind, 4);
    if |Show(e)| <= 4 {
      ScanShown(10, 4, e, behind);
    } else if e >= 0 {
      ScanLongExpiry(e, behind);
    } else {
      ScanLongNegative(-e, behind);
    }
  }

  /** Of a number that needs more than four characters the first four are read. */
  lemma ScanLong(e: int, behind: seq<Byte>)
    ensures ScanInt(ShowPadded(10, e) + behind, 4) == ScanNumber(Show(e) + behind, 4)
  {
    hide ScanNumber, Digits;
    var pad := if |Show(e)| <= 10 then 10 - |Show(e)| else 0;
    SkipsSpaces(pad, Show(e) + behind);
    assert ShowPadded(10, e) + behind == Spaces(pad) + (Show(e) + behind);
  }

  lemma ScanLongExpiry(e: nat, behind: seq<Byte>)
    requires 4 < |Show(e)|
    ensures ScanInt(ShowPadded(10, e) + behind, 4).Some?
    ensures ScanInt(ShowPadded(10, e) + behind, 4).value.0 >= 1000
  {
    hide Digits, ScanMagnitude, DigitsValue, ScanInt, ShowPadded;
    var d := Digits(e);
    ScanLong(e, behind);
    LeadingDigits(e, 4);
    DigitsBelow(d[..4]);
    assert Pow10(3) == 1000 && Pow10(4) == 10_000;
    assert IsDigit(d[0]);
    ScanCut(d, 4, false, behind);
  }

  lemma ScanLongNegative(e: nat, behind: seq<Byte>)
    requires e > 0 && 4 < |Show(-(e as int))|
    ensures ScanInt(ShowPadded(10, -(e as int)) + behind, 4).Some?
    ensures ScanInt(ShowPadded(10, -(e as int)) + behind, 4).value.0 < 0
  {
    hide Digits, ScanMagnitude, DigitsValue, ScanInt, ScanNumber, Show, ShowPadded;
    var d := Digits(e);
    ShownNegative(e);
    ScanLong(-(e as int), behind);
    LeadingDigits(e, 3);
    DigitsBelow(d[..3]);
    assert Pow10(2) == 100 && Pow10(3) == 1000;
    ScanNegative(-(e as int), behind, 4);
    ScanCut(d, 3, true, behind);
  }

  /** One number too many in front of the cut length fields moves them up by one. */
  lemma ScanCutLengths(r: Record, s: seq<Byte>, n: int)
    requires CRecord(r) && ScanInt(s, 4) == Some((n, [SPACE] + CutLengthFields(r)))
    ensures ScanLengths(s) == Some(Lengths(n, |r.info.ns|, |r.info.objId|, |r.info.key|))
  {
    hide ScanInt, ShowPadded;
    NumberWidth(|r.info.ns|);
    NumberWidth(|r.info.objId|);
    NumberWidth(|r.info.key|);
    var v := ShowPadded(10, |r.value|);
    var k := ShowPadded(4, |r.info.key|) + ([SPACE] + v);
    var o := ShowPadded(4, |r.info.objId|) + ([SPACE] + k);
    ScanPastBlank(CutLengthFields(r), 4);
    ScanField(4, |r.info.ns|, o);
    ScanPastBlank(o, 4);
    ScanField(4, |r.info.objId|, k);
    ScanPastBlank(k, 10);
    ScanShown(4, 10, |r.info.key|, [SPACE] + v);
  }

  /** An expiry that is no length of a namespace is not taken for one. */
  lemma ScanOtherTail(e: int, rest: seq<Byte>)
    requires IsInt32(e) && (e < 0 || e > MAX_NAMESPACE_LEN)
    ensures var l := ScanLengths([SPACE] + (ShowPadded(10, e) + ([SPACE] + rest)));
            l.Some? ==> l.value.nsLen < 0 || l.value.nsLen > MAX_NAMESPACE_LEN
  {
    hide ScanInt;
    ScanExpiry(e, rest);
  }

  /** With the lengths moved up, the byte that should end the record is looked for in value and what follows. */
  lemma ShiftedBody(r: Record, f: Fields, rest: seq<Byte>)
    requires ValidFields(f)
    requires f.objLen == |r.info.ns| && f.keyLen == |r.info.objId| && f.valueLen == |r.info.key|
    ensures var p := ParseBody(f, [SPACE] + (PackKeyInfo(r.info) + r.value + [NEWLINE] + rest));
            var tail := r.value + [NEWLINE] + rest;
            && (p.Complete? <==> 0 < f.nsLen <= |tail| && tail[f.nsLen - 1] == NEWLINE)
            && (p == NoEntry <==> f.nsLen > |tail|)
  {
    var packed, tail, n := PackKeyInfo(r.info), r.value + [NEWLINE] + rest, f.nsLen;
    var data := [SPACE] + (packed + r.value + [NEWLINE] + rest);
    assert data == [SPACE] + (packed + tail);
    assert packed[|packed| - 1] == SPACE;
    if n == 0 {
      assert data[|packed|] == SPACE;
    } else if n <= |tail| {
      assert data[|packed| + n] == tail[n - 1];
    }
  }

  /** The 61 bytes the reader takes for the header, when that is one character too long. */
  lemma WideParts(r: Record, rest: seq<Byte>)
    requires CRecord(r) && ValidOp(r.op) && Excess(r) == 1
    ensures |Encode(r) + rest| > FIX_FIELDS_LENGTH
    ensures (Encode(r) + rest)[FIX_FIELDS_LENGTH..] == [SPACE] + (PackKeyInfo(r.info) + r.value + [NEWLINE] + rest)
    ensures CString((Encode(r) + rest)[..FIX_FIELDS_LENGTH])
         == ShowPadded(10, r.timestamp)
              + ([SPACE, r.op, SPACE] + (ShowPadded(10, r.keyHash) + ([SPACE] + CutTail(r))))
  {
    hide Header, CutTail, ShowPadded, CString, PackKeyInfo, NoNul;
    HeaderIsText(r);
    CutWideHeader(r);
    var cut := ShowPadded(10, r.timestamp)
      + ([SPACE, r.op, SPACE] + (ShowPadded(10, r.keyHash) + ([SPACE] + CutTail(r))));
    CutText(Header(r), cut, PackKeyInfo(r.info), r.value, rest);
    CStringOfText(cut);
  }

  /** A text that is one space longer than what is cut from it. */
  lemma CutText(header: seq<Byte>, cut: seq<Byte>, info: seq<Byte>, value: seq<Byte>, rest: seq<Byte>)
    requires header == cut + [SPACE] && |header| == FIX_FIELDS_LENGTH + 1 && NoNul(header)
    ensures var text := header + info + value + [NEWLINE] + rest;
            && |text| > FIX_FIELDS_LENGTH && text[..FIX_FIELDS_LENGTH] == cut
            && text[FIX_FIELDS_LENGTH..] == [SPACE] + (info + value + [NEWLINE] + rest)
    ensures NoNul(cut)
  {
    assert cut == header[..FIX_FIELDS_LENGTH];
    Regrouped(cut, [SPACE], info, value, rest);
  }

  lemma Regrouped(cut: seq<Byte>, blank: seq<Byte>, info: seq<Byte>, value: seq<Byte>, rest: seq<Byte>)
    ensures cut + blank + info + value + [NEWLINE] + rest == cut + (blank + (info + value + [NEWLINE] + rest))
  {
  }

  lemma WideShown(n: int)
    requires IsInt32(n) && Wide(n)
    ensures ShowPadded(10, n) == Show(n)
  {
    NumberWidth(n);
  }

  /** How far behind the key the reader looks for the end of a record with one number too wide. */
  function Shift(r: Record): (n: nat)
    ensures n <= MAX_NAMESPACE_LEN
  {
    if Wide(r.keyHash) && !Wide(r.expires) && 0 < r.expires <= MAX_NAMESPACE_LEN then r.expires
    else if !Wide(r.keyHash) && Wide(r.expires) then -r.expires % 10
    else 0
  }

  /**
    The bytes there are that far: the reader takes them for the end of some other record, or waits for
    more of them, or stops with EINVAL.
   */
  ghost predicate Shifted(r: Record, rest: seq<Byte>) {
    var p, tail := Parse(Encode(r) + rest), r.value + [NEWLINE] + rest;
    && (p.Complete? <==> r.info.objId != [] && 0 < Shift(r) <= |tail| && tail[Shift(r) - 1] == NEWLINE)
    && (p == NoEntry <==> r.info.objId != [] && Shift(r) > |tail|)
  }

  lemma LowHalfPositive(n: int)
    requires IsInt32(n) && n != 0
    ensures LowHalf(n) > 0
  {
  }

  lemma ShiftedParse(r: Record, rest: seq<Byte>, f: Fields)
    requires CRecord(r) && ValidOp(r.op) && r.timestamp != 0 && Excess(r) == 1
    requires |Encode(r) + rest| > FIX_FIELDS_LENGTH
    requires ScanFields(CString((Encode(r) + rest)[..FIX_FIELDS_LENGTH])) == Some(f)
    requires f.timestamp == LowHalf(r.timestamp) && f.op == r.op && f.nsLen == Shift(r)
    requires f.objLen == |r.info.ns| && f.keyLen == |r.info.objId| && f.valueLen == |r.info.key|
    ensures Shifted(r, rest)
  {
    hide ScanFields, Encode, PackKeyInfo, CString, ParseBody, CutTail, ShowPadded, Excess, Wide, LowHalf, Shift;
    LowHalfPositive(r.timestamp);
    WideParts(r, rest);
    if ValidFields(f) {
      ShiftedBody(r, f, rest);
    }
  }

  /** An expiry of 1 to 64 behind a key hash too wide is read as the length of the namespace. */
  lemma WideHash(r: Record, rest: seq<Byte>)
    requires CRecord(r) && ValidOp(r.op) && r.timestamp != 0
    requires !Wide(r.timestamp) && Wide(r.keyHash) && !Wide(r.expires)
    ensures Shifted(r, rest)
  {
    hide ScanFields, ScanLengths, Encode, PackKeyInfo, CutLengthFields, CString, ScanInt, ShowPadded, ParseBody,
      Shifted;
    WideParts(r, rest);
    WideShown(r.keyHash);
    ScanWideHash(r, CutTail(r));
    if 0 <= r.expires <= MAX_NAMESPACE_LEN {
      ScanExpiry(r.expires, CutLengthFields(r));
      ScanCutLengths(r, [SPACE] + CutTail(r), r.expires);
      var f := Fields(LowHalf(r.timestamp), r.op, -(-r.keyHash / 10), -r.keyHash % 10,
                      r.expires, |r.info.ns|, |r.info.objId|, |r.info.key|);
      ShiftedParse(r, rest, f);
    } else {
      ScanOtherTail(r.expires, CutLengthFields(r));
      NeverShifted(r, rest);
    }
  }

  lemma NeverShifted(r: Record, rest: seq<Byte>)
    requires Shift(r) == 0 && Parse(Encode(r) + rest) == Invalid
    ensures Shifted(r, rest)
  {
  }

  /** The last digit of an expiry too wide is read as the length of the namespace. */
  lemma WideExpiry(r: Record, rest: seq<Byte>)
    requires CRecord(r) && ValidOp(r.op) && r.timestamp != 0
    requires !Wide(r.timestamp) && !Wide(r.keyHash) && Wide(r.expires)
    ensures Shifted(r, rest)
  {
    hide ScanFields, ScanLengths, Encode, PackKeyInfo, CutLengthFields, CString, ScanInt, ShowPadded, Show,
      ParseBody, Shifted;
    WideParts(r, rest);
    WideShown(r.expires);
    var digit := -r.expires % 10;
    ScanWideExpiry(r, CutLengthFields(r));
    ScanStrayDigit(digit, CutLengthFields(r));
    ScanCutLengths(r, Show(digit) + ([SPACE] + CutLengthFields(r)), digit);
    var f := Fields(LowHalf(r.timestamp), r.op, r.keyHash, LowHalf(-(-r.expires / 10)),
                    digit, |r.info.ns|, |r.info.objId|, |r.info.key|);
    ShiftedParse(r, rest, f);
  }

  /** With both too wide, the expiry is read as a negative length. */
  lemma WideBoth(r: Record, rest: seq<Byte>)
    requires CRecord(r) && ValidOp(r.op) && !Wide(r.timestamp) && Wide(r.keyHash) && Wide(r.expires)
    ensures Shifted(r, rest)
  {
    hide ScanFields, ScanLengths, ParseBody, CString, Show, Shifted;
    HeaderLength(r);
    HeaderIsText(r);
    NumberWidth(r.timestamp);
    NumberWidth(r.keyHash);
    NumberWidth(r.expires);
    var data := (Encode(r) + rest)[..FIX_FIELDS_LENGTH];
    assert data == Header(r)[..FIX_FIELDS_LENGTH];
    CStringOfText(data);
    var behind := data[37..];
    var tail := ShowPadded(10, r.expires) + ([SPACE] + behind);
    assert data == ShowPadded(10, r.timestamp) + ([SPACE, r.op, SPACE] + (Show(r.keyHash) + ([SPACE] + tail)));
    ScanWideHash(r, tail);
    ScanOtherTail(r.expires, behind);
    NeverShifted(r, rest);
  }

  /** The first number that is too wide is not read as what it is. */
  lemma ScanWideTime(n: int, rest: seq<Byte>)
    requires IsInt32(n) && Wide(n)
    ensures ScanFields(Show(n) + rest).Some? ==> ScanFields(Show(n) + rest).value.timestamp != LowHalf(n)
  {
    hide ScanInt, ScanLengths, Show;
    ScanPastBlank(Show(n) + rest, 10);
    ScanTooWide(n, rest);
    WideHalf(n);
  }

  lemma WideHalf(n: int)
    requires IsInt32(n) && Wide(n)
    ensures LowHalf(-(-n / 10)) != LowHalf(n)
  {
    var q := -n / 10;
    assert 0 < q < 0x8000_0000;
    assert LowHalf(-q) == 0x1_0000_0000 - q;
    assert LowHalf(n) == 0x1_0000_0000 + n;
  }

  /** A wide expiry: its last digit is read as the next number. */
  lemma ScanWideExpiry(r: Record, tail: seq<Byte>)
    requires CRecord(r) && !Wide(r.timestamp) && ValidOp(r.op) && !Wide(r.keyHash) && Wide(r.expires)
    ensures ScanFields(ShowPadded(10, r.timestamp) + ([SPACE, r.op, SPACE]
                         + (ShowPadded(10, r.keyHash) + ([SPACE] + (Show(r.expires) + ([SPACE] + tail))))))
         == match ScanLengths(Show(-r.expires % 10) + ([SPACE] + tail))
            case None => None
            case Some(l) => Some(Fields(LowHalf(r.timestamp), r.op, r.keyHash, LowHalf(-(-r.expires / 10)),
                                        l.nsLen, l.objLen, l.keyLen, l.valueLen))
  {
    hide ScanInt, ScanLengths, Show, ShowPadded;
    var e := Show(r.expires) + ([SPACE] + tail);
    ScanFront(r.timestamp, r.op, ShowPadded(10, r.keyHash) + ([SPACE] + e));
    NumberWidth(r.keyHash);
    ScanPastBlank(ShowPadded(10, r.keyHash) + ([SPACE] + e), 10);
    ScanField(10, r.keyHash, e);
    ScanTooWide(r.expires, [SPACE] + tail);
  }

  /** A record with a number too wide does not come back, whatever follows it. */
  lemma WideNotRead(r: Record, rest: seq<Byte>)
    requires CRecord(r) && ValidOp(r.op) && Excess(r) > 0
    ensures var p := Parse(Encode(r) + rest);
            p.Complete? ==> p.record.timestamp != LowHalf(r.timestamp) || p.record.keyHash != r.keyHash
                            || p.record.expires != LowHalf(r.expires)
  {
    hide ScanFields, ParseBody, CString, Show, ShowPadded, LowHalf;
    HeaderLength(r);
    HeaderIsText(r);
    var data := (Encode(r) + rest)[..FIX_FIELDS_LENGTH];
    assert data == Header(r)[..FIX_FIELDS_LENGTH];
    CStringOfText(data);
    ParsedFields(Encode(r) + rest);
    if Wide(r.timestamp) {
      WideShown(r.timestamp);
      NumberWidth(r.timestamp);
      ScanWideTime(r.timestamp, data[11..]);
      assert data == Show(r.timestamp) + data[11..];
    } else if Wide(r.keyHash) {
      WideHashCut(r, data);
    } else {
      WideExpiryCut(r, data);
    }
  }

  /** Whatever parses has the fields of the first 61 bytes. */
  lemma ParsedFields(data: seq<Byte>)
    ensures var p := Parse(data);
            p.Complete? ==>
              && |data| >= FIX_FIELDS_LENGTH
              && var f := ScanFields(CString(data[..FIX_FIELDS_LENGTH]));
                 && f.Some? && ValidFields(f.value)
                 && p.record.timestamp == f.value.timestamp && p.record.op == f.value.op
                 && p.record.keyHash == f.value.keyHash && p.record.expires == f.value.expires
                 && |p.record.info.key| == f.value.keyLen
  {
    hide ScanFields, CString;
  }

  /** Whatever parses fits the C types, but for times that may be one bit longer. */
  lemma ParsedTyped(data: seq<Byte>)
    ensures var p := Parse(data);
            p.Complete? ==>
              && ValidOp(p.record.op) && |p.record.info.key| > 0
              && CRecord(p.record.(timestamp := 0, expires := 0))
  {
    hide CString;
    if |data| >= FIX_FIELDS_LENGTH {
      ScannedTyped(CString(data[..FIX_FIELDS_LENGTH]));
    }
  }

  lemma ScannedTyped(s: seq<Byte>)
    ensures var f := ScanFields(s);
            f.Some? ==> IsInt32(f.value.keyHash) && f.value.valueLen <= INT32_MAX
  {
  }

  lemma WideHashCut(r: Record, data: seq<Byte>)
    requires CRecord(r) && ValidOp(r.op) && !Wide(r.timestamp) && Wide(r.keyHash)
    requires |Header(r)| >= FIX_FIELDS_LENGTH && data == Header(r)[..FIX_FIELDS_LENGTH]
    ensures ScanFields(data).Some? ==> ScanFields(data).value.keyHash != r.keyHash
  {
    hide ScanFields, ScanLengths, Show;
    NumberWidth(r.timestamp);
    NumberWidth(r.keyHash);
    var tail := data[25..];
    assert data == ShowPadded(10, r.timestamp) + ([SPACE, r.op, SPACE] + (Show(r.keyHash) + ([SPACE] + tail)));
    ScanWideHash(r, tail);
  }

  lemma WideExpiryCut(r: Record, data: seq<Byte>)
    requires CRecord(r) && ValidOp(r.op) && !Wide(r.timestamp) && !Wide(r.keyHash) && Wide(r.expires)
    requires |Header(r)| >= FIX_FIELDS_LENGTH && data == Header(r)[..FIX_FIELDS_LENGTH]
    ensures ScanFields(data).Some? ==> ScanFields(data).value.expires != LowHalf(r.expires)
  {
    hide ScanFields, ScanLengths, Show;
    NumberWidth(r.timestamp);
    NumberWidth(r.keyHash);
    NumberWidth(r.expires);
    var tail := data[36..];
    assert data == ShowPadded(10, r.timestamp)
      + ([SPACE, r.op, SPACE] + (ShowPadded(10, r.keyHash) + ([SPACE] + (Show(r.expires) + ([SPACE] + tail)))));
    ScanWideExpiry(r, tail);
    WideHalf(r.expires);
  }

  // ---------- main results ----------

  /** An empty key is written like any other and refused by the reader, whatever follows it. */
  lemma EmptyKey(r: Record, rest: seq<Byte>)
    requires Plain(r) && r.info.key == []
    ensures Parse(Encode(r) + rest) == Invalid
  {
    hide ScanFields, Encode, CString;
    PlainParts(r, rest);
  }

  /**
    Exactly the readable records survive the log: whatever follows the record, the reader standing
    in front of it returns it if and only if no number in it needs an eleventh character, its time
    stamp is not 0, its operation is known and its key is not empty.
   */
  lemma ReadsExactly(r: Record, rest: seq<Byte>)
    requires CRecord(r)
    ensures Parse(Encode(r) + rest) == Complete(AsRead(r), RecordLength(r)) <==> Readable(r)
    ensures Parse(Encode(r) + rest).Complete? && Parse(Encode(r) + rest).record == AsRead(r) ==> Readable(r)
  {
    hide Parse, Encode, ScanFields, CString;
    if Readable(r) {
      RoundTrip(r, rest);
    } else {
      ParsedFields(Encode(r) + rest);
      if ValidOp(r.op) && Excess(r) > 0 {
        WideNotRead(r, rest);
      }
    }
  }

  /** And exactly the loggable ones come back unchanged. */
  lemma RoundTripExactly(r: Record, rest: seq<Byte>)
    requires CRecord(r)
    ensures Parse(Encode(r) + rest) == Complete(r, RecordLength(r)) <==> Loggable(r)
  {
    hide Parse, Encode, ScanFields, CString;
    ReadsExactly(r, rest);
    ParsedFields(Encode(r) + rest);
    if Loggable(r) {
      RoundTrip(r, rest);
    } else if Parse(Encode(r) + rest) == Complete(r, RecordLength(r)) {
      ParsedTimes(Encode(r) + rest);
    }
  }

  lemma ParsedTimes(data: seq<Byte>)
    ensures Parse(data).Complete? ==> Parse(data).record.timestamp > 0 && Parse(data).record.expires >= 0
  {
  }

  /** What a request handler logs; a delete has no value and never expires. */
  predicate Written(r: Record) {
    CRecord(r) && r.timestamp > 0 && ValidOp(r.op) && (IsSet(r) || (r.value == [] && r.expires == 0))
  }

  /** The reader finds, within the value, that the record does not end where a number too wide says. */
  predicate Decided(r: Record) {
    && Written(r)
    && (r.info.objId == [] || Shift(r) == 0 || (Shift(r) <= |r.value| && r.value[Shift(r) - 1] != NEWLINE))
  }

  lemma WideShifted(r: Record, rest: seq<Byte>)
    requires Written(r) && Excess(r) > 0
    ensures Shifted(r, rest)
  {
    hide Shifted;
    if !Wide(r.expires) {
      WideHash(r, rest);
    } else if !Wide(r.keyHash) {
      WideExpiry(r, rest);
    } else {
      WideBoth(r, rest);
    }
  }

  /** Of those the reader returns exactly the readable ones; on any other it stops with EINVAL. */
  lemma ReadsBackOrStops(r: Record, rest: seq<Byte>)
    requires Decided(r)
    ensures Parse(Encode(r) + rest) == if Readable(r) then Complete(AsRead(r), RecordLength(r)) else Invalid
  {
    hide Parse, Encode;
    if Readable(r) {
      RoundTrip(r, rest);
    } else if Excess(r) > 0 {
      WideShifted(r, rest);
      var n, tail := Shift(r), r.value + [NEWLINE] + rest;
      assert 0 < n <= |r.value| ==> tail[n - 1] == r.value[n - 1];
    } else {
      EmptyKey(r, rest);
    }
  }

  /**
    Whatever a handler logs comes back or stops the reader, whatever follows it, if and only if it is
    decided; a record that is not is misread, or waited for, already at the end of a file.
   */
  lemma DecidedExactly(r: Record)
    requires Written(r)
    ensures Decided(r) <==>
      forall rest :: Parse(Encode(r) + rest) == if Readable(r) then Complete(AsRead(r), RecordLength(r)) else Invalid
    ensures !Decided(r) ==> !Readable(r) && Parse(Encode(r) + []) != Invalid
  {
    hide Parse, Encode;
    if Decided(r) {
      forall rest
        ensures Parse(Encode(r) + rest) == if Readable(r) then Complete(AsRead(r), RecordLength(r)) else Invalid
      {
        ReadsBackOrStops(r, rest);
      }
    } else {
      WideShifted(r, []);
      var n, tail := Shift(r), r.value + [NEWLINE] + [];
      assert 0 < n <= |r.value| ==> tail[n - 1] == r.value[n - 1];
      assert n == |r.value| + 1 ==> tail[n - 1] == NEWLINE;
    }
  }

  /** A record that the reader takes for another one, at the end of a file. */
  lemma MisreadExactly(r: Record)
    requires Written(r) && Excess(r) > 0
    ensures Parse(Encode(r) + []).Complete? <==>
              r.info.objId != [] && Shift(r) > 0
              && (Shift(r) == |r.value| + 1 || (Shift(r) <= |r.value| && r.value[Shift(r) - 1] == NEWLINE))
    ensures Parse(Encode(r) + []).Complete? ==> Parse(Encode(r) + []).record != AsRead(r)
  {
    hide Parse, Encode;
    WideShifted(r, []);
    ReadsExactly(r, []);
    var n, tail := Shift(r), r.value + [NEWLINE] + [];
    assert 0 < n <= |r.value| ==> tail[n - 1] == r.value[n - 1];
    assert n == |r.value| + 1 ==> tail[n - 1] == NEWLINE;
  }
}
