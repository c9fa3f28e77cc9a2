/** MD5 streaming: buffering, bit counting and padding around an uninterpreted block transform. */
module Md5 {
  import opened Bytes
  import opened Division

  const WORD: int := 0x1_0000_0000

  type Word = n: int | 0 <= n < 0x1_0000_0000

  datatype State = State(a: Word, b: Word, c: Word, d: Word)

  const INITIAL := State(0x67452301, 0xefcdab89, 0x98badcfe, 0x10325476)

  /** `MD5Transform`: one block of 64 bytes into the state. */
  type Transform = (State, seq<Byte>) -> State

  /** Four bytes, least significant first. */
  function LittleEndian(n: Word): (s: seq<Byte>)
    ensures |s| == 4
  {
    [n % 256, n / 256 % 256, n / 65536 % 256, n / 16777216 % 256]
  }

  /** Bytes as the digits of a number in base 256, the least significant first. */
  function Weighted(s: seq<Byte>): (n: nat) {
    if s == [] then 0 else s[0] + 256 * Weighted(s[1..])
  }

  lemma WordIs(n: Word)
    ensures Weighted(LittleEndian(n)) == n
  {
    WeightedFour(LittleEndian(n));
    InBase256(n);
  }

  lemma InBase256(n: nat)
    requires n < WORD
    ensures n % 256 + 256 * (n / 256 % 256) + 65536 * (n / 65536 % 256) + 16777216 * (n / 16777216 % 256) == n
  {
    var q, r := n / 256, n / 65536;
    assert n == q * 256 + n % 256;
    assert q / 256 == r && r / 256 == n / 16777216;
    assert q == r * 256 + q % 256;
    assert r == r / 256 * 256 + r % 256 && r / 256 < 256;
  }

  lemma WeightedFour(s: seq<Byte>)
    requires |s| == 4
    ensures Weighted(s) == s[0] as int + 256 * s[1] as int + 65536 * s[2] as int + 16777216 * s[3] as int
  {
    assert Weighted(s[3..]) == s[3] + 256 * Weighted(s[4..]) by { assert s[3..][1..] == s[4..]; }
    assert Weighted(s[2..]) == s[2] + 256 * Weighted(s[3..]) by { assert s[2..][1..] == s[3..]; }
    assert Weighted(s[1..]) == s[1] + 256 * Weighted(s[2..]) by { assert s[1..][1..] == s[2..]; }
  }

  lemma WeightedPair(s: seq<Byte>, t: seq<Byte>)
    requires |s| == |t| == 4
    ensures Weighted(s + t) == Weighted(s) + WORD * Weighted(t)
  {
    var u := s + t;
    WeightedFour(s);
    assert Weighted(u[3..]) == u[3] + 256 * Weighted(u[4..]) by { assert u[3..][1..] == u[4..]; }
    assert Weighted(u[2..]) == u[2] + 256 * Weighted(u[3..]) by { assert u[2..][1..] == u[3..]; }
    assert Weighted(u[1..]) == u[1] + 256 * Weighted(u[2..]) by { assert u[1..][1..] == u[2..]; }
    assert u[4..] == t;
  }

  /** The transform over the blocks of a message that fills them. */
  function Fold(t: Transform, s: State, m: seq<Byte>): State
    requires |m| % 64 == 0
    decreases |m|
  {
    if m == [] then s else t(Fold(t, s, m[..|m| - 64]), m[|m| - 64..])
  }

  function Zeros(n: nat): (z: seq<Byte>)
    ensures |z| == n && forall i | 0 <= i < n :: z[i] == 0
  {
    seq(n, _ => 0)
  }

  /** The bit length as 64 bits, low word first (section 3.2 of RFC 1321). */
  function Length(bits: nat): seq<Byte> {
    LittleEndian(bits % WORD) + LittleEndian(bits / WORD % WORD)
  }

  /** One bit, then zeros up to 56 modulo 64, then the length (sections 3.1 and 3.2 of RFC 1321). */
  function Padded(m: seq<Byte>): seq<Byte> {
    m + [0x80] + Zeros((55 - |m|) % 64) + Length(8 * |m|)
  }

  lemma PaddedFills(m: seq<Byte>)
    ensures |Padded(m)| % 64 == 0 && |m| + 9 <= |Padded(m)| <= |m| + 72
  {
    hide LittleEndian;
    assert |Padded(m)| == |m| + 9 + (55 - |m|) % 64;
    UpToSixtyFour(|m|);
  }

  lemma UpToSixtyFour(n: nat)
    ensures 0 <= (55 - n) % 64 <= 63 && (n + 9 + (55 - n) % 64) % 64 == 0
  {
    var r, k := (55 - n) % 64, (55 - n) / 64;
    ModSplit(55 - n, 64);
    ModUnique(n + 9 + r, 1 - k, 0, 64);
  }

  function Digest(t: Transform, m: seq<Byte>): seq<Byte> {
    PaddedFills(m);
    var s := Fold(t, INITIAL, Padded(m));
    LittleEndian(s.a) + LittleEndian(s.b) + LittleEndian(s.c) + LittleEndian(s.d)
  }

  /**
    The message, a byte 128, zeros, and eight bytes that hold its length in bits, modulo 2^64, the least
    significant first.
   */
  lemma PaddedLayout(m: seq<Byte>)
    ensures var p := Padded(m);
            && |p| >= |m| + 9 && p[..|m|] == m && p[|m|] == 128
            && (forall i | |m| < i < |p| - 8 :: p[i] == 0)
            && Weighted(p[|p| - 8..]) == 8 * |m| % 0x1_0000_0000_0000_0000
  {
    hide LittleEndian, Weighted;
    var p, n := Padded(m), 8 * |m|;
    PaddedFills(m);
    assert p[|p| - 8..] == Length(n);
    LengthIs(n);
  }

  lemma LengthIs(n: nat)
    ensures Weighted(Length(n)) == n % 0x1_0000_0000_0000_0000
  {
    hide LittleEndian, Weighted;
    var a, b := n % WORD, n / WORD % WORD;
    WordIs(a);
    WordIs(b);
    WeightedPair(LittleEndian(a), LittleEndian(b));
    TwoWords(n);
  }

  lemma TwoWords(n: nat)
    ensures n % WORD + WORD * (n / WORD % WORD) == n % 0x1_0000_0000_0000_0000
  {
    var q := n / WORD;
    ModSplit(n, WORD);
    ModSplit(q, WORD);
    var r := n % WORD + WORD * (q % WORD);
    assert n == q / WORD * 0x1_0000_0000_0000_0000 + r;
    ModUnique(n, q / WORD, r, 0x1_0000_0000_0000_0000);
  }

  /** The digest holds the four words of the final state in turn, each with its least significant byte first. */
  lemma DigestLayout(t: Transform, m: seq<Byte>)
    ensures |Padded(m)| % 64 == 0
    ensures var d, s := Digest(t, m), Fold(t, INITIAL, Padded(m));
            && |d| == 16
            && Weighted(d[..4]) == s.a && Weighted(d[4..8]) == s.b
            && Weighted(d[8..12]) == s.c && Weighted(d[12..]) == s.d
  {
    hide LittleEndian, Weighted, Padded, Fold;
    PaddedFills(m);
    var d, s := Digest(t, m), Fold(t, INITIAL, Padded(m));
    assert d[..4] == LittleEndian(s.a) && d[4..8] == LittleEndian(s.b);
    assert d[8..12] == LittleEndian(s.c) && d[12..] == LittleEndian(s.d);
    WordIs(s.a);
    WordIs(s.b);
    WordIs(s.c);
    WordIs(s.d);
  }

  /** The state starts as the bytes 01, 23, .. ef, fe, .. 10 (section 3.3 of RFC 1321). */
  lemma InitialWords()
    ensures LittleEndian(INITIAL.a) + LittleEndian(INITIAL.b) + LittleEndian(INITIAL.c) + LittleEndian(INITIAL.d)
         == [0x01, 0x23, 0x45, 0x67, 0x89, 0xab, 0xcd, 0xef, 0xfe, 0xdc, 0xba, 0x98, 0x76, 0x54, 0x32, 0x10]
  {
  }

  /** The two count words of a message of `n` bytes. */
  function Low(n: nat): Word { 8 * n % WORD }

  function High(n: nat): Word { 8 * n / WORD % WORD }

  lemma IndexIs(n: nat)
    ensures Low(n) / 8 % 64 == n % 64
  {
    var q := 8 * n / WORD;
    assert Low(n) == 8 * n - q * WORD;
    assert Low(n) / 8 == n - q * 0x2000_0000;
    assert n % 64 == (n - q * 0x2000_0000) % 64 by {
      Turns(n - q * 0x2000_0000, q * 0x80_0000);
    }
  }

  lemma Turns(a: int, k: int)
    ensures (a + k * 64) % 64 == a % 64
  {
  }

  /** The word arithmetic of the bit count: the carry is seen by the sum coming out smaller. */
  lemma CountBits(n: nat, len: nat)
    requires len < WORD
    ensures var add := 8 * len % WORD;
            var low := (Low(n) + add) % WORD;
            && low == Low(n + len)
            && (High(n) + (if low < add then 1 else 0) + len / 0x2000_0000) % WORD == High(n + len)
  {
    var add, low := 8 * len % WORD, (Low(n) + 8 * len % WORD) % WORD;
    var q, r := 8 * n / WORD, 8 * len / WORD;
    assert len / 0x2000_0000 == r;
    var carry := if low < add then 1 else 0;
    assert Low(n) + add == low + carry * WORD;
    var total := 8 * (n + len);
    assert total == (q + r + carry) * WORD + low;
    Quotient(total, q + r + carry, low);
    assert ((q % WORD) + carry + r) % WORD == (q + r + carry) % WORD by {
      ModAdd(q, carry + r);
    }
  }

  lemma Quotient(a: int, q: int, r: int)
    requires 0 <= r < WORD && a == q * WORD + r
    ensures a / WORD == q && a % WORD == r
  {
  }

  lemma ModAdd(q: int, x: int)
    ensures (q % WORD + x) % WORD == (q + x) % WORD
  {
  }

  lemma FoldStep(t: Transform, s: State, m: seq<Byte>, block: seq<Byte>)
    requires |m| % 64 == 0 && |block| == 64
    ensures |m + block| % 64 == 0 && Fold(t, s, m + block) == t(Fold(t, s, m), block)
  {
  }

  /** The index after the last whole block of an input of `len` bytes with `part` to fill the buffer. */
  function LastIndex(part: nat, len: nat): nat
    requires part <= len
  {
    part + (len - part) / 64 * 64
  }

  /** The loop condition `i + 63 < len` does not wrap around 32 bits where the loop should end. */
  predicate Indexable(part: nat, len: nat) {
    len < WORD && (part <= len ==> LastIndex(part, len) + 63 < WORD)
  }

  /** The loop's index at its turn `k`, and whether it then goes on. */
  function IndexAt(part: nat, k: nat): nat { (part + 64 * k) % WORD }

  predicate GoesOn(i: nat, len: nat) { (i + 63) % WORD < len }

  /** Whenever the loop comes to a block, that block lies within the input. */
  ghost predicate StaysInside(part: nat, len: nat) {
    forall k: nat :: (forall j | 0 <= j <= k :: GoesOn(IndexAt(part, j), len)) ==> IndexAt(part, k) + 64 <= len
  }

  /** Up to the last whole block the index does not wrap, and before it the loop goes on. */
  lemma BeforeLast(part: nat, len: nat, j: nat)
    requires 1 <= part <= len < WORD && part + 64 * j <= LastIndex(part, len)
    ensures IndexAt(part, j) == part + 64 * j
    ensures part + 64 * j < LastIndex(part, len) ==> GoesOn(IndexAt(part, j), len) && IndexAt(part, j) + 64 <= len
    ensures part + 64 * j == LastIndex(part, len) ==>
              len - IndexAt(part, j) < 64 && (GoesOn(IndexAt(part, j), len) <==> !Indexable(part, len))
  {
  }

  /** The loop transforms nothing but the input if and only if its condition does not wrap at the end. */
  lemma InsideExactly(part: nat, len: nat)
    requires 1 <= part <= len < WORD
    ensures StaysInside(part, len) <==> Indexable(part, len)
  {
    hide LastIndex, IndexAt, GoesOn;
    var n := (len - part) / 64;
    LastIs(part, len);
    if Indexable(part, len) {
      forall k: nat | forall j | 0 <= j <= k :: GoesOn(IndexAt(part, j), len)
        ensures IndexAt(part, k) + 64 <= len
      {
        BeforeLast(part, len, n);
        assert k < n;
        BeforeLast(part, len, k);
      }
    } else {
      forall j: nat | j <= n ensures GoesOn(IndexAt(part, j), len) {
        BeforeLast(part, len, j);
      }
      BeforeLast(part, len, n);
    }
  }

  lemma LastIs(part: nat, len: nat)
    requires part <= len
    ensures LastIndex(part, len) == part + 64 * ((len - part) / 64)
  {
  }

  /** Every input up to 64 bytes short of the limit is safe, whatever is in the buffer. */
  lemma IndexableExactly(len: nat)
    requires len < WORD
    ensures (forall part | 1 <= part <= 64 :: Indexable(part, len)) <==> len <= WORD - 64
  {
    if len > WORD - 64 {
      var part := (len - 1) % 64 + 1;
      assert (len - part) % 64 == 0;
      assert LastIndex(part, len) == len;
      assert !Indexable(part, len);
    }
  }
}
