/** Bytes, 32-bit integers and the big-endian integer fields of the wire format. */
module Bytes {
  type Byte = b: int | 0 <= b < 256

  datatype Option<+T> = None | Some(value: T)

  // error numbers
  const ENOENT := 2
  const ENOMEM := 12
  const EINVAL := 22
  const ENOSPC := 28

  const INT32_MIN: int := -0x8000_0000
  const INT32_MAX: int := 0x7FFF_FFFF

  predicate IsInt32(n: int) {
    INT32_MIN <= n <= INT32_MAX
  }

  /** Conversion to a C `int`: keep the low 32 bits, read as two's complement. */
  function ToInt32(n: int): (r: int)
    ensures IsInt32(r)
    ensures IsInt32(n) ==> r == n
  {
    var m := n % 0x1_0000_0000;
    if m > INT32_MAX then m - 0x1_0000_0000 else m
  }

  /** `int2buff`: four bytes, most significant first. */
  function PutInt(n: int): (s: seq<Byte>)
    ensures |s| == 4
  {
    var u := n % 0x1_0000_0000;
    [u / 0x100 / 0x100 / 0x100, u / 0x100 / 0x100 % 0x100, u / 0x100 % 0x100, u % 0x100]
  }

  /** `buff2int`. */
  function GetInt(s: seq<Byte>): (n: int)
    requires |s| >= 4
    ensures IsInt32(n)
  {
    ToInt32(s[0] as int * 0x100_0000 + s[1] as int * 0x1_0000 + s[2] as int * 0x100 + s[3] as int)
  }

  /** The bytes are the digits of the number in base 256, the most significant first. */
  lemma PutIntIs(n: int)
    ensures var s := PutInt(n);
            s[0] as int * 0x100_0000 + s[1] as int * 0x1_0000 + s[2] as int * 0x100 + s[3] as int == n % 0x1_0000_0000
  {
    var u := n % 0x1_0000_0000;
    FourBytes(u, u / 0x100, u / 0x100 / 0x100);
  }

  lemma FourBytes(u: nat, q: nat, r: nat)
    requires q == u / 0x100 && r == q / 0x100
    ensures r / 0x100 * 0x100_0000 + r % 0x100 * 0x1_0000 + q % 0x100 * 0x100 + u % 0x100 == u
  {
    assert u == q * 0x100 + u % 0x100;
    assert q == r * 0x100 + q % 0x100;
    assert r == r / 0x100 * 0x100 + r % 0x100;
  }

  lemma GetPutInt(n: int, rest: seq<Byte>)
    requires IsInt32(n)
    ensures GetInt(PutInt(n) + rest) == n
  {
    var u := n % 0x1_0000_0000;
    var s := PutInt(n) + rest;
    var q, r := u / 0x100, u / 0x100 / 0x100;
    FourBytes(u, q, r);
    assert s[0] == r / 0x100 && s[1] == r % 0x100 && s[2] == q % 0x100 && s[3] == u % 0x100;
  }
}
