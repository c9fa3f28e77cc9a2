/** Counters kept as decimal text behind a four-byte expiry. */
module Counters {
  import opened Bytes
  import opened Decimal
  import opened Division

  const INT64_MIN: int := -0x8000_0000_0000_0000
  const INT64_MAX: int := 0x7FFF_FFFF_FFFF_FFFF

  predicate IsInt64(n: int) { INT64_MIN <= n <= INT64_MAX }

  /** The size of the handler's value buffer, less its final zero. */
  const ROOM := 31

  function Clamp(n: int): (r: int)
    ensures IsInt64(r) && (IsInt64(n) ==> r == n)
  {
    if n > INT64_MAX then INT64_MAX else if n < INT64_MIN then INT64_MIN else n
  }

  /** `strtoll` in base 10. */
  function StrToLL(s: seq<Byte>): (n: int)
    ensures IsInt64(n)
  {
    var t := SkipSpaces(s);
    if t != [] && (t[0] == MINUS || t[0] == PLUS) then Magnitude(t[1..], t[0] == MINUS) else Magnitude(t, false)
  }

  function Magnitude(t: seq<Byte>, negative: bool): (n: int)
    ensures IsInt64(n)
  {
    var v: int := DigitsValue(t[..DigitRun(t, |t|)]);
    Clamp(if negative then -v else v)
  }

  /** Sum in 64 bits, two's complement. */
  function Add64(a: int, b: int): (r: int)
    ensures IsInt64(r) && (IsInt64(a + b) ==> r == a + b)
  {
    var m := (a + b) % 0x1_0000_0000_0000_0000;
    if m > INT64_MAX then m - 0x1_0000_0000_0000_0000 else m
  }

  /** An expiry that has passed; 0 means never. */
  predicate Stale(v: seq<Byte>, now: int) {
    |v| >= 4 && GetInt(v) != 0 && GetInt(v) < now
  }

  /** The number an increment arrives at: a missing, stale or oversized value counts as zero. */
  function NewCount(stored: Option<seq<Byte>>, inc: int, now: int): (n: int)
    ensures IsInt32(inc) ==> IsInt64(n)
  {
    if stored.None? || Stale(stored.value, now) || |stored.value| >= ROOM then inc
    else Add64(StrToLL(if |stored.value| >= 4 then stored.value[4..] else []), inc)
  }

  /** `mp_inc_value`: the expiry, then the number as text. */
  function IncValue(stored: Option<seq<Byte>>, inc: int, expires: int, now: int): seq<Byte> {
    PutInt(expires) + Show(NewCount(stored, inc, now))
  }

  /** What a counter says. */
  lemma StrToLLShow(n: int)
    requires IsInt64(n)
    ensures StrToLL(Show(n)) == n
  {
    var d := Digits(if n < 0 then -n else n);
    RunOfDigits(d, [], |d|);
    ValueOfDigits(if n < 0 then -n else n);
    assert d + [] == d && d[..|d|] == d && Show(n)[|Show(n)| - |d|..] == d;
    assert IsDigit(d[0]);
    assert SkipSpaces(Show(n)) == Show(n);
  }

  /** Behind any spaces and an optional sign, the number is that of the digits, up to the first other byte. */
  lemma StrToLLIs(spaces: seq<Byte>, sign: seq<Byte>, digits: seq<Byte>, rest: seq<Byte>)
    requires forall c | c in spaces :: IsSpace(c)
    requires sign == [] || sign == [MINUS] || sign == [PLUS]
    requires forall i :: 0 <= i < |digits| ==> IsDigit(digits[i])
    requires rest == [] || !IsDigit(rest[0])
    requires digits == [] && sign == [] ==> rest == [] || (!IsSpace(rest[0]) && rest[0] != MINUS && rest[0] != PLUS)
    ensures var v: int := DigitsValue(digits);
            StrToLL(spaces + (sign + (digits + rest))) == Clamp(if sign == [MINUS] then -v else v)
  {
    hide Magnitude, Clamp, DigitsValue, SkipSpaces, DigitRun;
    SpacesSkipped(spaces, sign + (digits + rest));
    LeadingDigits(digits, rest);
    MagnitudeIs(digits + rest, digits, sign == [MINUS]);
    SignedIs(sign, digits, rest);
  }

  lemma SignedIs(sign: seq<Byte>, digits: seq<Byte>, rest: seq<Byte>)
    requires sign == [] || sign == [MINUS] || sign == [PLUS]
    requires forall i :: 0 <= i < |digits| ==> IsDigit(digits[i])
    requires digits == [] && sign == [] ==> rest == [] || (rest[0] != MINUS && rest[0] != PLUS)
    ensures var t := sign + (digits + rest);
            if sign == [] then t == digits + rest && (t == [] || (t[0] != MINUS && t[0] != PLUS))
            else t != [] && t[0] == sign[0] && t[1..] == digits + rest
  {
    assert digits != [] ==> (digits + rest)[0] == digits[0];
    assert digits == [] ==> digits + rest == rest;
  }

  lemma LeadingDigits(digits: seq<Byte>, rest: seq<Byte>)
    requires forall i :: 0 <= i < |digits| ==> IsDigit(digits[i])
    requires rest == [] || !IsDigit(rest[0])
    ensures var t := digits + rest; t[..DigitRun(t, |t|)] == digits
  {
    hide DigitRun, IsDigit;
    RunOfDigits(digits, rest, |digits + rest|);
  }

  lemma MagnitudeIs(t: seq<Byte>, digits: seq<Byte>, negative: bool)
    requires (forall i :: 0 <= i < |digits| ==> IsDigit(digits[i])) && t[..DigitRun(t, |t|)] == digits
    ensures var v: int := DigitsValue(digits); Magnitude(t, negative) == Clamp(if negative then -v else v)
  {
    hide Clamp, DigitsValue, DigitRun, IsDigit;
  }

  lemma {:induction false} SpacesSkipped(spaces: seq<Byte>, t: seq<Byte>)
    requires (forall c | c in spaces :: IsSpace(c)) && (t == [] || !IsSpace(t[0]))
    ensures SkipSpaces(spaces + t) == t
    decreases |spaces|
  {
    if spaces == [] {
      assert spaces + t == t;
    } else {
      SpacesSkipped(spaces[1..], t);
      assert (spaces + t)[1..] == spaces[1..] + t;
    }
  }

  /** A counter always fits the buffer it is read into. */
  lemma CounterFits(n: int)
    requires IsInt64(n)
    ensures 4 + |Show(n)| < ROOM
  {
    DigitsWidth(if n < 0 then -n else n, 19);
    assert Pow10(19) == 10_000_000_000_000_000_000 by { BigPower(); }
  }

  lemma BigPower()
    ensures Pow10(19) == 10_000_000_000_000_000_000
  {
    assert Pow10(5) == 100_000;
    assert Pow10(10) == 10_000_000_000;
    assert Pow10(15) == 1_000_000_000_000_000;
  }

  /** An increment of a live counter is an addition. */
  lemma IncAdds(n: int, inc: int, was: int, expires: int, now: int)
    requires IsInt64(n) && IsInt32(was) && (was == 0 || was >= now)
    ensures IncValue(Some(PutInt(was) + Show(n)), inc, expires, now) == PutInt(expires) + Show(Add64(n, inc))
  {
    hide PutInt, GetInt, Show, StrToLL, Add64;
    var v := PutInt(was) + Show(n);
    GetPutInt(was, Show(n));
    CounterFits(n);
    StrToLLShow(n);
    assert v[4..] == Show(n);
  }

  /** A value whose expiry has passed is replaced: the counter starts again at the increment. */
  lemma StaleRestarts(text: seq<Byte>, inc: int, was: int, expires: int, now: int)
    requires IsInt32(was) && was != 0 && was < now
    ensures IncValue(Some(PutInt(was) + text), inc, expires, now) == PutInt(expires) + Show(inc)
  {
    hide PutInt, GetInt, Show, StrToLL, Add64;
    GetPutInt(was, text);
  }

  /** So is one that is missing, and one too long for the buffer it would be read into. */
  lemma OthersRestart(v: seq<Byte>, inc: int, expires: int, now: int)
    ensures IncValue(None, inc, expires, now) == PutInt(expires) + Show(inc)
    ensures |v| >= 31 ==> IncValue(Some(v), inc, expires, now) == PutInt(expires) + Show(inc)
  {
    hide PutInt, GetInt, Show, StrToLL, Add64;
  }

  // ---------- runs ----------

  /** What happens to a counter: an increment with a new expiry, at a time, or its removal. */
  datatype Event = Inc(amount: int, expires: int, now: int) | Removed

  function Counted(es: seq<Event>): Option<seq<Byte>>
    decreases |es|
  {
    if es == [] then None
    else
      var k := |es| - 1;
      match es[k]
      case Removed => None
      case Inc(amount, expires, now) => Some(IncValue(Counted(es[..k]), amount, expires, now))
  }

  /** Increment i finds no counter, or one that has expired. */
  predicate Restarts(es: seq<Event>, i: nat)
    requires i < |es| && es[i].Inc?
  {
    i == 0 || es[i - 1].Removed? || (es[i - 1].expires != 0 && es[i - 1].expires < es[i].now)
  }

  /** Increment `start` finds no counter or an expired one, and behind it there are only increments that find it. */
  predicate LastRestart(es: seq<Event>, start: nat)
    requires start < |es|
  {
    && es[start].Inc? && Restarts(es, start)
    && (forall i | start < i < |es| :: es[i].Inc? && !Restarts(es, i))
  }

  function Sum(es: seq<Event>): int
    decreases |es|
  {
    if es == [] then 0 else Sum(es[..|es| - 1]) + if es[|es| - 1].Inc? then es[|es| - 1].amount else 0
  }

  /** The number in 64 bits, two's complement. */
  function Wrapped(n: int): (r: int)
    ensures IsInt64(r) && (r - n) % 0x1_0000_0000_0000_0000 == 0
    ensures IsInt64(n) ==> r == n
  {
    Add64(n, 0)
  }

  lemma AddWraps(n: int, more: int)
    ensures Add64(Wrapped(n), more) == Wrapped(n + more)
  {
    var m := 0x1_0000_0000_0000_0000;
    var k := (Wrapped(n) - n) / m;
    assert Wrapped(n) == n + k * m;
    SameRemainder(n + more, k);
  }

  lemma SameRemainder(n: int, k: int)
    ensures (n + k * 0x1_0000_0000_0000_0000) % 0x1_0000_0000_0000_0000 == n % 0x1_0000_0000_0000_0000
  {
    ModSplit(n, 0x1_0000_0000_0000_0000);
    ModUnique(n + k * 0x1_0000_0000_0000_0000, n / 0x1_0000_0000_0000_0000 + k, n % 0x1_0000_0000_0000_0000,
              0x1_0000_0000_0000_0000);
  }

  /** The increments are C numbers. */
  predicate Typed(es: seq<Event>) {
    forall i | 0 <= i < |es| && es[i].Inc? :: IsInt32(es[i].amount) && IsInt32(es[i].expires)
  }

  /**
    In every run of increments and removals that ends with an increment, the counter holds the sum, in
    64 bits, of the increments since the last one that found it missing or expired - of all of them since
    then, and with the expiry of the last.
   */
  lemma {:induction false} CounterSums(es: seq<Event>) returns (start: nat)
    requires Typed(es) && es != [] && es[|es| - 1].Inc?
    ensures start < |es| && LastRestart(es, start)
    ensures Counted(es) == Some(PutInt(es[|es| - 1].expires) + Show(Wrapped(Sum(es[start..]))))
    decreases |es|
  {
    hide IncValue, PutInt, Show, Wrapped, Sum, LastRestart, Restarts;
    var k := |es| - 1;
    var front, last := es[..k], es[k];
    if Restarts(es, k) {
      start := k;
      RestartIs(es);
      assert es[k..] == [last];
      SumOne(last);
      RestartsNow(es);
    } else {
      NotFirst(es);
      start := CounterSums(front);
      RestartsBefore(es, start);
      var n := Sum(front[start..]);
      SumMore(es, start);
      IncAdds(Wrapped(n), last.amount, es[k - 1].expires, last.expires, last.now);
      AddWraps(n, last.amount);
    }
  }

  lemma RestartsNow(es: seq<Event>)
    requires es != [] && es[|es| - 1].Inc? && Restarts(es, |es| - 1)
    ensures LastRestart(es, |es| - 1)
  {
  }

  lemma NotFirst(es: seq<Event>)
    requires es != [] && es[|es| - 1].Inc? && !Restarts(es, |es| - 1)
    ensures |es| > 1 && es[|es| - 2].Inc? && (es[|es| - 2].expires == 0 || es[|es| - 2].expires >= es[|es| - 1].now)
  {
  }

  lemma RestartsBefore(es: seq<Event>, start: nat)
    requires |es| > 1 && es[|es| - 1].Inc? && !Restarts(es, |es| - 1)
    requires start < |es| - 1 && LastRestart(es[..|es| - 1], start)
    ensures LastRestart(es, start)
  {
    var front := es[..|es| - 1];
    forall i | start < i < |es| - 1 ensures es[i].Inc? && !Restarts(es, i) {
      assert front[i].Inc? && !Restarts(front, i);
    }
  }

  lemma SumMore(es: seq<Event>, start: nat)
    requires start < |es| - 1 && es[|es| - 1].Inc?
    ensures Sum(es[start..]) == Sum(es[..|es| - 1][start..]) + es[|es| - 1].amount
  {
    assert es[start..][..|es| - 1 - start] == es[..|es| - 1][start..];
  }

  lemma SumOne(e: Event)
    requires e.Inc? && IsInt32(e.amount)
    ensures Wrapped(Sum([e])) == e.amount
  {
    assert [e][..0] == [];
  }

  lemma RestartIs(es: seq<Event>)
    requires Typed(es) && es != [] && es[|es| - 1].Inc? && Restarts(es, |es| - 1)
    ensures var last := es[|es| - 1]; Counted(es) == Some(PutInt(last.expires) + Show(last.amount))
  {
    hide IncValue, PutInt, Show;
    var k := |es| - 1;
    var last := es[k];
    OthersRestart([], last.amount, last.expires, last.now);
    if k > 0 && es[k - 1].Inc? {
      var text := Remembered(es[..k]);
      StaleRestarts(text, last.amount, es[k - 1].expires, last.expires, last.now);
    }
  }

  /** After an increment the value starts with its expiry. */
  lemma Remembered(es: seq<Event>) returns (text: seq<Byte>)
    requires es != [] && es[|es| - 1].Inc?
    ensures Counted(es) == Some(PutInt(es[|es| - 1].expires) + text)
  {
    var last := es[|es| - 1];
    text := Show(NewCount(Counted(es[..|es| - 1]), last.amount, last.now));
  }
}
