/** Sub-key lists as byte strings: joining, splitting into a bounded number of columns, merging. */
module SubKeyLists {
  import opened Bytes
  import opened Lex

  type Key = seq<Byte>

  const SEPARATOR: Byte := 1
  const MAX_COUNT := 4096
  const MAX_SIZE := 64 * 1024

  /** The keys the list format can carry. */
  predicate Plain(k: Key) {
    k != [] && forall i | 0 <= i < |k| :: k[i] != 0 && k[i] != SEPARATOR
  }

  ghost predicate AllPlain(ks: seq<Key>) { forall k | k in ks :: Plain(k) }

  /** Ascending in `strcmp` order, without repetition. */
  ghost predicate Strict(ks: seq<Key>) {
    forall i, j | 0 <= i < j < |ks| :: Less(ks[i], ks[j])
  }

  /** Ascending, repetitions allowed: what sorting the keys of a batch gives. */
  ghost predicate Ascending(ks: seq<Key>) {
    forall i, j | 0 <= i < j < |ks| :: !Less(ks[j], ks[i])
  }

  /** What the loops write: a separator before every key. */
  function Pieces(ks: seq<Key>): seq<Byte>
    decreases |ks|
  {
    if ks == [] then [] else Pieces(ks[..|ks| - 1]) + [SEPARATOR] + ks[|ks| - 1]
  }

  /** What is stored: the first separator is overwritten by the expiry. */
  function Join(ks: seq<Key>): seq<Byte>
    requires ks != []
  {
    PiecesStart(ks);
    Pieces(ks)[1..]
  }

  /** Position of the first separator, or the length. */
  function Cut(s: seq<Byte>): (i: nat)
    ensures i <= |s| && SEPARATOR !in s[..i] && (i < |s| ==> s[i] == SEPARATOR)
    decreases |s|
  {
    if s == [] || s[0] == SEPARATOR then 0
    else
      var i := Cut(s[1..]);
      assert s[..1 + i] == [s[0]] + s[1..][..i];
      1 + i
  }

  /** `splitEx`: at most `max` columns, the last one taking all that remains. */
  function Columns(s: seq<Byte>, max: nat): seq<Key>
    requires max > 0
    decreases max
  {
    var i := Cut(s);
    if max == 1 || i == |s| then [s] else [s[..i]] + Columns(s[i + 1..], max - 1)
  }

  lemma {:induction false} PiecesConcat(a: seq<Key>, b: seq<Key>)
    ensures Pieces(a + b) == Pieces(a) + Pieces(b)
    decreases |b|
  {
    if b == [] {
      assert a + b == a;
    } else {
      var front := b[..|b| - 1];
      assert (a + b)[..|a + b| - 1] == a + front;
      PiecesConcat(a, front);
    }
  }

  lemma PiecesOne(k: Key)
    ensures Pieces([k]) == [SEPARATOR] + k
  {
  }

  lemma PiecesStart(ks: seq<Key>)
    requires ks != []
    ensures Pieces(ks) == [SEPARATOR] + ks[0] + Pieces(ks[1..])
  {
    assert ks == [ks[0]] + ks[1..];
    PiecesConcat([ks[0]], ks[1..]);
    PiecesOne(ks[0]);
  }

  lemma JoinHead(ks: seq<Key>)
    requires ks != []
    ensures Join(ks) == ks[0] + Pieces(ks[1..])
  {
    PiecesStart(ks);
  }

  lemma CutPlain(k: Key, rest: seq<Byte>)
    requires Plain(k) && (rest == [] || rest[0] == SEPARATOR)
    ensures Cut(k + rest) == |k|
  {
    var s := k + rest;
    var i := Cut(s);
    assert forall j | 0 <= j < |k| :: s[j] == k[j];
    assert forall j | 0 <= j < i :: s[j] == s[..i][j];
    assert rest != [] ==> s[|k|] == rest[0];
  }

  /** The columns read back from a stored list: its keys, the last ones lumped together if too many. */
  function ColumnsOf(ks: seq<Key>, max: nat): seq<Key>
    requires ks != [] && max > 0
  {
    if |ks| <= max then ks else ks[..max - 1] + [Join(ks[max - 1..])]
  }

  lemma JoinCons(ks: seq<Key>)
    requires |ks| > 1
    ensures Join(ks) == ks[0] + ([SEPARATOR] + Join(ks[1..]))
  {
    JoinHead(ks);
    PiecesStart(ks[1..]);
  }

  lemma JoinOne(ks: seq<Key>)
    requires |ks| == 1
    ensures Join(ks) == ks[0]
  {
    JoinHead(ks);
  }

  /** Splitting a stored list gives its keys back, up to the column limit. */
  lemma {:induction false} SplitJoin(ks: seq<Key>, max: nat)
    requires ks != [] && AllPlain(ks) && max > 0
    ensures Columns(Join(ks), max) == ColumnsOf(ks, max)
    decreases max
  {
    hide Join, Columns, Plain;
    if |ks| == 1 {
      JoinOne(ks);
      CutPlain(ks[0], []);
      assert ks[0] + [] == ks[0] && ks == [ks[0]];
      ColumnsLast(ks[0], max);
    } else {
      JoinCons(ks);
      if max == 1 {
        ColumnsLast(Join(ks), max);
        assert ks[0..] == ks && ks[..0] == [];
      } else {
        ColumnsFirst(ks[0], Join(ks[1..]), max);
        SplitJoin(ks[1..], max - 1);
        TailColumns(ks, max);
      }
    }
  }

  lemma ColumnsLast(s: seq<Byte>, max: nat)
    requires max == 1 || (max > 1 && Cut(s) == |s|)
    ensures Columns(s, max) == [s]
  {
  }

  lemma ColumnsFirst(k: Key, rest: seq<Byte>, max: nat)
    requires Plain(k) && max > 1
    ensures Columns(k + ([SEPARATOR] + rest), max) == [k] + Columns(rest, max - 1)
  {
    hide Cut;
    var s := k + ([SEPARATOR] + rest);
    CutPlain(k, [SEPARATOR] + rest);
    assert s[..|k|] == k && s[|k| + 1..] == rest;
  }

  lemma TailColumns(ks: seq<Key>, max: nat)
    requires |ks| > 1 && max > 1
    ensures ColumnsOf(ks, max) == [ks[0]] + ColumnsOf(ks[1..], max - 1)
  {
  }

  /** The duplicates after a key that has been taken. */
  function Skip(subs: seq<Key>, k: Key): (r: seq<Key>)
    ensures |r| <= |subs|
    decreases |subs|
  {
    if subs == [] || subs[0] != k then subs else Skip(subs[1..], k)
  }

  /** The merge loops of a batch add. */
  function Merge(subs: seq<Key>, cols: seq<Key>): seq<Key>
    decreases |subs| + |cols|
  {
    if subs == [] then cols
    else if cols == [] || Less(subs[0], cols[0]) then [subs[0]] + Merge(Skip(subs[1..], subs[0]), cols)
    else if subs[0] == cols[0] then [subs[0]] + Merge(Skip(subs[1..], subs[0]), cols[1..])
    else [cols[0]] + Merge(subs, cols[1..])
  }

  /** The difference loops of a batch delete. */
  function Diff(subs: seq<Key>, cols: seq<Key>): seq<Key>
    decreases |subs| + |cols|
  {
    if subs == [] || cols == [] then cols
    else if Less(subs[0], cols[0]) then Diff(subs[1..], cols)
    else if subs[0] == cols[0] then Diff(subs[1..], cols[1..])
    else [cols[0]] + Diff(subs, cols[1..])
  }

  ghost predicate Below(k: Key, ks: seq<Key>) { forall x | x in ks :: Less(k, x) }

  lemma StrictCons(k: Key, ks: seq<Key>)
    requires Strict(ks) && Below(k, ks)
    ensures Strict([k] + ks)
  {
  }

  lemma StrictTail(ks: seq<Key>)
    requires Strict(ks) && ks != []
    ensures Strict(ks[1..]) && Below(ks[0], ks[1..])
    ensures forall x :: x in ks <==> x == ks[0] || x in ks[1..]
  {
  }

  lemma AscendingTail(ks: seq<Key>)
    requires Ascending(ks) && ks != []
    ensures Ascending(ks[1..]) && forall x | x in ks[1..] :: !Less(x, ks[0])
    ensures forall x :: x in ks <==> x == ks[0] || x in ks[1..]
  {
  }

  lemma {:induction false} SkipIs(subs: seq<Key>, k: Key)
    requires Ascending(subs) && forall x | x in subs :: !Less(x, k)
    ensures Ascending(Skip(subs, k)) && Below(k, Skip(subs, k))
    ensures forall x :: x in Skip(subs, k) <==> x in subs && x != k
    decreases |subs|
  {
    hide Less;
    if subs != [] {
      AscendingTail(subs);
      if subs[0] == k {
        SkipIs(subs[1..], k);
      } else {
        assert subs[0] in subs;
        Total(subs[0], k);
        forall x | x in subs ensures Less(k, x) {
          Total(k, x);
        }
        Irreflexive(k);
      }
    }
  }

  lemma BelowThrough(a: Key, b: Key, ks: seq<Key>)
    requires Less(a, b) && Below(b, ks)
    ensures Below(a, ks)
  {
    forall x | x in ks ensures Less(a, x) {
      Transitive(a, b, x);
    }
  }

  lemma BelowRest(ks: seq<Key>, k: Key)
    requires Ascending(ks) && ks != [] && Less(k, ks[0])
    ensures Below(k, ks)
  {
    forall x | x in ks ensures Less(k, x) {
      AscendingTail(ks);
      Total(ks[0], x);
      if Less(ks[0], x) {
        Transitive(k, ks[0], x);
      } else {
        Irreflexive(x);
      }
    }
  }

  /** A batch add is the sorted union, whatever repetitions the batch holds. */
  lemma {:induction false} MergeIsUnion(subs: seq<Key>, cols: seq<Key>)
    requires Ascending(subs) && Strict(cols)
    ensures Strict(Merge(subs, cols))
    ensures forall x :: x in Merge(subs, cols) <==> x in subs || x in cols
    decreases |subs| + |cols|
  {
    hide Less, Strict, Ascending, Skip;
    if subs == [] {
    } else if cols == [] || Less(subs[0], cols[0]) {
      var k, rest := subs[0], Skip(subs[1..], subs[0]);
      AscendingTail(subs);
      SkipIs(subs[1..], k);
      MergeIsUnion(rest, cols);
      if cols != [] {
        StrictTail(cols);
        BelowThrough(k, cols[0], cols[1..]);
      }
      StrictCons(k, Merge(rest, cols));
    } else if subs[0] == cols[0] {
      var k, rest := subs[0], Skip(subs[1..], subs[0]);
      AscendingTail(subs);
      SkipIs(subs[1..], k);
      StrictTail(cols);
      MergeIsUnion(rest, cols[1..]);
      StrictCons(k, Merge(rest, cols[1..]));
    } else {
      Total(subs[0], cols[0]);
      StrictTail(cols);
      BelowRest(subs, cols[0]);
      MergeIsUnion(subs, cols[1..]);
      StrictCons(cols[0], Merge(subs, cols[1..]));
    }
  }

  /** A batch delete is the sorted difference. */
  lemma {:induction false} DiffIsDifference(subs: seq<Key>, cols: seq<Key>)
    requires Ascending(subs) && Strict(cols)
    ensures Strict(Diff(subs, cols))
    ensures forall x :: x in Diff(subs, cols) <==> x in cols && x !in subs
    decreases |subs| + |cols|
  {
    hide Less, Strict, Ascending;
    if subs == [] || cols == [] {
    } else if Less(subs[0], cols[0]) {
      AscendingTail(subs);
      StrictTail(cols);
      BelowThrough(subs[0], cols[0], cols[1..]);
      Irreflexive(subs[0]);
      DiffIsDifference(subs[1..], cols);
    } else if subs[0] == cols[0] {
      AscendingTail(subs);
      StrictTail(cols);
      Irreflexive(cols[0]);
      DiffIsDifference(subs[1..], cols[1..]);
    } else {
      Total(subs[0], cols[0]);
      StrictTail(cols);
      BelowRest(subs, cols[0]);
      Irreflexive(cols[0]);
      DiffIsDifference(subs, cols[1..]);
      StrictCons(cols[0], Diff(subs, cols[1..]));
    }
  }

  /** The columns `key_do_get` hands to the operations. */
  function Read(ks: seq<Key>): seq<Key> { if ks == [] then [] else ColumnsOf(ks, MAX_COUNT) }

  /** All the keys of a list that was written from these columns. */
  function Written(cols: seq<Key>): seq<Key> {
    if cols == [] then [] else Columns(Join(cols), |Join(cols)| + 1)
  }

  function AddKeys(ks: seq<Key>, subs: seq<Key>): seq<Key> { Written(Merge(subs, Read(ks))) }

  function DelKeys(ks: seq<Key>, subs: seq<Key>): seq<Key> { Written(Diff(subs, Read(ks))) }

  lemma {:induction false} PiecesLength(ks: seq<Key>)
    requires AllPlain(ks)
    ensures |Pieces(ks)| >= 2 * |ks|
    decreases |ks|
  {
    if ks != [] {
      assert Plain(ks[|ks| - 1]);
      PiecesLength(ks[..|ks| - 1]);
    }
  }

  lemma WrittenPlain(ks: seq<Key>)
    requires AllPlain(ks)
    ensures Written(ks) == ks
  {
    hide Join, Columns, Plain;
    if ks != [] {
      PiecesLength(ks);
      JoinLength(ks);
      SplitJoin(ks, |Join(ks)| + 1);
    }
  }

  lemma JoinLength(ks: seq<Key>)
    requires ks != []
    ensures |Join(ks)| == |Pieces(ks)| - 1
  {
  }

  /** A lump of keys is written as its keys. */
  lemma JoinLump(a: seq<Key>, q: seq<Key>, b: seq<Key>)
    requires q != []
    ensures Join(a + [Join(q)] + b) == Join(a + q + b)
  {
    PiecesConcat(a + [Join(q)], b);
    PiecesConcat(a, [Join(q)]);
    PiecesOne(Join(q));
    PiecesConcat(a + q, b);
    PiecesConcat(a, q);
    PiecesStart(q);
    assert [SEPARATOR] + Join(q) == Pieces(q);
  }

  lemma WrittenLump(m: seq<Key>, i: nat, q: seq<Key>)
    requires q != [] && i < |m| && m[i] == Join(q)
    requires AllPlain(m[..i] + q + m[i + 1..])
    ensures Written(m) == m[..i] + q + m[i + 1..]
  {
    hide Join, Columns, Plain;
    assert m == m[..i] + [m[i]] + m[i + 1..];
    JoinLump(m[..i], q, m[i + 1..]);
    WrittenPlain(m[..i] + q + m[i + 1..]);
  }

  predicate NoMarks(x: seq<Byte>) { forall i | 0 <= i < |x| :: x[i] != 0 && x[i] != SEPARATOR }

  /** A separator sorts before every byte of a plain key. */
  lemma {:induction false} LumpLess(x: seq<Byte>, y: seq<Byte>, rest: seq<Byte>)
    requires NoMarks(x) && NoMarks(y)
    ensures Less(x, y + ([SEPARATOR] + rest)) <==> x == y || Less(x, y)
    ensures x != y + ([SEPARATOR] + rest)
    decreases |y|
  {
    var z := y + ([SEPARATOR] + rest);
    assert z[|y|] == SEPARATOR;
    if y == [] {
      assert x != [] ==> x[0] > 1;
    } else if x != [] && x[0] == y[0] {
      assert z[1..] == y[1..] + ([SEPARATOR] + rest);
      LumpLess(x[1..], y[1..], rest);
      assert x == [x[0]] + x[1..] && y == [y[0]] + y[1..];
    }
  }

  lemma LumpOrder(x: Key, q: seq<Key>)
    requires Plain(x) && AllPlain(q) && |q| > 1
    ensures x != Join(q) && (Less(x, Join(q)) <==> !Less(q[0], x))
  {
    JoinCons(q);
    assert Plain(q[0]);
    LumpLess(x, q[0], Join(q[1..]));
    Total(x, q[0]);
    if Less(q[0], x) {
      Asymmetric(q[0], x);
    }
    Irreflexive(x);
  }

  ghost predicate Before(a: seq<Key>, b: seq<Key>) { forall x, y | x in a && y in b :: Less(x, y) }

  lemma StrictConcat(a: seq<Key>, b: seq<Key>)
    requires Strict(a) && Strict(b)
    ensures Strict(a + b) <==> Before(a, b)
  {
    var c := a + b;
    if Before(a, b) {
      forall i, j | 0 <= i < j < |c| ensures Less(c[i], c[j]) {
        if i < |a| <= j {
          assert a[i] in a && b[j - |a|] in b;
        }
      }
    }
    if Strict(c) {
      forall x, y | x in a && y in b ensures Less(x, y) {
        var i :| 0 <= i < |a| && a[i] == x;
        var j :| 0 <= j < |b| && b[j] == y;
        assert c[i] == x && c[|a| + j] == y;
      }
    }
  }

  lemma StrictSplit(ks: seq<Key>, i: nat)
    requires Strict(ks) && i <= |ks|
    ensures Strict(ks[..i]) && Strict(ks[i..]) && Before(ks[..i], ks[i..])
    ensures forall x :: x in ks <==> x in ks[..i] || x in ks[i..]
  {
  }

  /** The lumped part of a list of too many keys. */
  function Tail(ks: seq<Key>): seq<Key>
    requires |ks| > MAX_COUNT
  {
    ks[MAX_COUNT - 1..]
  }

  lemma ReadIs(ks: seq<Key>)
    requires Strict(ks) && AllPlain(ks)
    ensures Strict(Read(ks))
    ensures |ks| <= MAX_COUNT ==> Read(ks) == ks
    ensures |ks| > MAX_COUNT ==>
      && Read(ks) == ks[..MAX_COUNT - 1] + [Join(Tail(ks))]
      && forall x :: x in ks <==> x in ks[..MAX_COUNT - 1] || x in Tail(ks)
  {
    hide Join, Less;
    if |ks| > MAX_COUNT {
      var p, q := ks[..MAX_COUNT - 1], Tail(ks);
      StrictSplit(ks, MAX_COUNT - 1);
      forall x | x in p ensures Less(x, Join(q)) {
        assert x in ks && q[0] in q;
        LumpOrder(x, q);
        Asymmetric(x, q[0]);
      }
      StrictConcat(p, [Join(q)]);
    }
  }

  /** A key the lump does not get in the way of. */
  predicate Clear(ks: seq<Key>, k: Key)
  {
    |ks| <= MAX_COUNT || Less(k, ks[MAX_COUNT - 1]) || Less(ks[|ks| - 1], k)
  }

  lemma Removed(m: seq<Key>, i: nat)
    requires Strict(m) && i < |m|
    ensures forall x :: x in m[..i] <==> x in m && Less(x, m[i])
    ensures forall x :: x in m[i + 1..] <==> x in m && Less(m[i], x)
  {
    forall x ensures x in m[..i] <==> x in m && Less(x, m[i]) {
      if x in m && Less(x, m[i]) {
        var j :| 0 <= j < |m| && m[j] == x;
        Irreflexive(x);
        if j > i {
          Asymmetric(m[i], m[j]);
        }
        assert m[..i][j] == x;
      }
    }
    forall x ensures x in m[i + 1..] <==> x in m && Less(m[i], x) {
      if x in m && Less(m[i], x) {
        var j :| 0 <= j < |m| && m[j] == x;
        Irreflexive(x);
        if j < i {
          Asymmetric(m[j], m[i]);
        }
        assert m[i + 1..][j - i - 1] == x;
      }
    }
  }

  /** What a merge or difference on too many keys leaves: the lump in the middle of its neighbours. */
  lemma LumpedList(m: seq<Key>, q: seq<Key>) returns (low: seq<Key>, high: seq<Key>)
    requires Strict(m) && AllPlain(q) && |q| > 1 && Join(q) in m
    requires forall x | x in m :: x == Join(q) || Plain(x)
    ensures Written(m) == low + q + high && Strict(low) && Strict(high)
    ensures forall x :: x in low <==> x in m && x != Join(q) && !Less(q[0], x)
    ensures forall x :: x in high <==> x in m && x != Join(q) && Less(q[0], x)
  {
    hide Join, Less, Plain, Written;
    var i :| 0 <= i < |m| && m[i] == Join(q);
    low, high := m[..i], m[i + 1..];
    Removed(m, i);
    StrictSplit(m, i);
    StrictSplit(m, i + 1);
    Irreflexive(m[i]);
    forall x | x in m && x != Join(q)
      ensures Less(x, m[i]) <==> !Less(q[0], x)
      ensures Less(m[i], x) <==> Less(q[0], x)
    {
      LumpOrder(x, q);
      Total(x, m[i]);
      if Less(x, m[i]) {
        Asymmetric(x, m[i]);
      }
    }
    WrittenLump(m, i, q);
  }

  /**
    Adding keys: the list afterwards holds exactly the old keys and the new ones, and it is sorted
    without repetition exactly if each new key is clear of the lump.
   */
  lemma AddExactly(ks: seq<Key>, subs: seq<Key>)
    requires Strict(ks) && AllPlain(ks) && Ascending(subs) && AllPlain(subs)
    ensures forall x :: x in AddKeys(ks, subs) <==> x in ks || x in subs
    ensures Strict(AddKeys(ks, subs)) <==> forall k | k in subs :: Clear(ks, k)
  {
    hide Join, Less, Plain, Written, Merge, Read;
    ReadIs(ks);
    MergeIsUnion(subs, Read(ks));
    var m := Merge(subs, Read(ks));
    if |ks| <= MAX_COUNT {
      WrittenPlain(m);
    } else {
      var q, p := Tail(ks), ks[..MAX_COUNT - 1];
      assert Join(q) in Read(ks);
      NotPlain(q);
      StrictSplit(ks, MAX_COUNT - 1);
      var low, high := LumpedList(m, q);
      AddLow(ks, subs, low);
      AddHigh(ks, subs, high);
      Strict3(low, q, high);
      assert forall k | k in subs :: k in low || k in high;
    }
  }

  lemma NotPlain(q: seq<Key>)
    requires AllPlain(q) && |q| > 1
    ensures !Plain(Join(q))
  {
    hide Join, Plain;
    if Plain(Join(q)) {
      LumpOrder(Join(q), q);
    }
  }

  /** Nothing before the lump collides with it exactly if no new key before it does. */
  lemma AddLow(ks: seq<Key>, subs: seq<Key>, low: seq<Key>)
    requires |ks| > MAX_COUNT && Strict(ks)
    requires forall x :: x in low <==> (x in subs || x in ks[..MAX_COUNT - 1]) && !Less(Tail(ks)[0], x)
    ensures Before(low, Tail(ks)) <==> forall k | k in subs && k in low :: Clear(ks, k)
  {
    hide Less;
    var q := Tail(ks);
    StrictSplit(ks, MAX_COUNT - 1);
    StrictTail(q);
    var last := ks[|ks| - 1];
    assert q[|q| - 1] == last && last in q[1..];
    if Before(low, q) {
      forall k | k in subs && k in low ensures Clear(ks, k) {
        assert q[0] in q;
      }
    }
    if forall k | k in subs && k in low :: Clear(ks, k) {
      forall x, y | x in low && y in q ensures Less(x, y) {
        if x in subs && Less(last, x) {
          Transitive(q[0], last, x);
          assert false;
        }
        assert Less(x, q[0]) by {
          assert x in subs ==> Clear(ks, x);
          assert x !in subs ==> x in ks[..MAX_COUNT - 1] && q[0] in q;
        }
        if y != q[0] {
          Transitive(x, q[0], y);
        }
      }
    }
  }

  lemma AddHigh(ks: seq<Key>, subs: seq<Key>, high: seq<Key>)
    requires |ks| > MAX_COUNT && Strict(ks)
    requires forall x :: x in high <==> (x in subs || x in ks[..MAX_COUNT - 1]) && Less(Tail(ks)[0], x)
    ensures forall x | x in high :: x in subs
    ensures Before(Tail(ks), high) <==> forall k | k in subs && k in high :: Clear(ks, k)
  {
    hide Less;
    var q := Tail(ks);
    StrictSplit(ks, MAX_COUNT - 1);
    StrictTail(q);
    var last := ks[|ks| - 1];
    assert q[|q| - 1] == last;
    assert last in q && q[0] in q;
    forall x | x in high ensures x in subs && !Less(x, q[0]) {
      Asymmetric(q[0], x);
    }
    if forall k | k in subs && k in high :: Clear(ks, k) {
      StrictSplit(q, |q| - 1);
      assert q[|q| - 1..] == [last];
      forall y, x | y in q && x in high ensures Less(y, x) {
        assert Clear(ks, x);
        if y != last {
          Transitive(y, last, x);
        }
      }
    }
  }

  lemma Strict3(low: seq<Key>, q: seq<Key>, high: seq<Key>)
    requires q != [] && Strict(low) && Strict(q) && Strict(high)
    ensures Strict(low + q + high) <==> Before(low, q) && Before(q, high)
  {
    hide Less;
    StrictConcat(low, q);
    assert (low + q + high)[..|low + q|] == low + q;
    if Before(low, q) {
      StrictConcat(low + q, high);
      if Before(q, high) {
        forall x, y | x in low + q && y in high ensures Less(x, y) {
          if x in low {
            assert q[0] in q;
            Transitive(x, q[0], y);
          }
        }
      }
    } else {
      StrictPrefix(low + q + high, |low + q|);
    }
  }

  lemma StrictPrefix(ks: seq<Key>, i: nat)
    requires i <= |ks|
    ensures Strict(ks) ==> Strict(ks[..i])
  {
  }

  /**
    Deleting keys always leaves a sorted list, which is the difference exactly if no key to delete
    sits in the lump.
   */
  lemma DelExactly(ks: seq<Key>, subs: seq<Key>)
    requires Strict(ks) && AllPlain(ks) && Ascending(subs) && AllPlain(subs)
    ensures Strict(DelKeys(ks, subs)) && forall x | x in DelKeys(ks, subs) :: x in ks
    ensures (forall x :: x in DelKeys(ks, subs) <==> x in ks && x !in subs)
       <==> (|ks| <= MAX_COUNT || forall k | k in subs :: k !in Tail(ks))
  {
    hide Join, Less, Plain, Written, Diff, Read;
    ReadIs(ks);
    DiffIsDifference(subs, Read(ks));
    var m := Diff(subs, Read(ks));
    if |ks| <= MAX_COUNT {
      WrittenPlain(m);
    } else {
      var q, p := Tail(ks), ks[..MAX_COUNT - 1];
      assert Join(q) in Read(ks);
      NotPlain(q);
      StrictSplit(ks, MAX_COUNT - 1);
      var low, high := LumpedList(m, q);
      assert q[0] in q;
      assert high == [] by {
        if high != [] {
          assert high[0] in high && high[0] in p;
          Asymmetric(q[0], high[0]);
        }
      }
      assert low + q + high == low + q;
      StrictConcat(low, q);
      forall x ensures x in DelKeys(ks, subs) <==> x in q || (x in p && x !in subs) {
        if x in p {
          Asymmetric(x, q[0]);
        }
      }
      forall x | x in q ensures x !in p {
        if x in p {
          Irreflexive(x);
        }
      }
    }
  }

  /** The value length the size check starts from: four bytes of expiry and the keys, or nothing. */
  function ValueLength(ks: seq<Key>): nat { if ks == [] then 0 else 4 + |Join(ks)| }

  /** The size check: every key of the batch is counted, new or not. */
  predicate Refused(ks: seq<Key>, subs: seq<Key>) { ValueLength(ks) + |Pieces(subs)| >= MAX_SIZE }

  datatype ListOp = Put(subs: seq<Key>, accepted: bool) | Take(subs: seq<Key>)

  function StepList(ks: seq<Key>, op: ListOp): seq<Key> {
    match op
    case Put(subs, accepted) => if accepted then AddKeys(ks, subs) else ks
    case Take(subs) => DelKeys(ks, subs)
  }

  function StepSet(s: set<Key>, op: ListOp): set<Key> {
    match op
    case Put(subs, accepted) => if accepted then s + set k | k in subs else s
    case Take(subs) => s - set k | k in subs
  }

  /** The exact condition under which an operation on a sorted list does what it should. */
  ghost predicate Safe(ks: seq<Key>, op: ListOp) {
    match op
    case Put(subs, accepted) => accepted ==> forall k | k in subs :: Clear(ks, k)
    case Take(subs) => |ks| <= MAX_COUNT || forall k | k in subs :: k !in Tail(ks)
  }

  ghost predicate WellFormedOp(ks: seq<Key>, op: ListOp) {
    && AllPlain(op.subs) && Ascending(op.subs)
    && (op.Put? ==> (op.accepted <==> !Refused(ks, op.subs)))
  }

  ghost predicate SafeRun(ks: seq<Key>, ops: seq<ListOp>)
    decreases |ops|
  {
    ops == [] || (WellFormedOp(ks, ops[0]) && Safe(ks, ops[0]) && SafeRun(StepList(ks, ops[0]), ops[1..]))
  }

  function RunList(ks: seq<Key>, ops: seq<ListOp>): seq<Key>
    decreases |ops|
  {
    if ops == [] then ks else RunList(StepList(ks, ops[0]), ops[1..])
  }

  function RunSet(s: set<Key>, ops: seq<ListOp>): set<Key>
    decreases |ops|
  {
    if ops == [] then s else RunSet(StepSet(s, ops[0]), ops[1..])
  }

  /** One operation on a sorted list of the keys in `s`: right exactly if safe. */
  lemma StepExactly(ks: seq<Key>, s: set<Key>, op: ListOp)
    requires Strict(ks) && AllPlain(ks) && WellFormedOp(ks, op) && forall x :: x in ks <==> x in s
    ensures AllPlain(StepList(ks, op))
    ensures Safe(ks, op) <==>
      Strict(StepList(ks, op)) && forall x :: x in StepList(ks, op) <==> x in StepSet(s, op)
  {
    hide AddKeys, DelKeys, Refused, Clear, Strict, Plain, Ascending;
    match op {
      case Put(subs, _) => AddExactly(ks, subs);
      case Take(subs) =>
        DelExactly(ks, subs);
        var r := DelKeys(ks, subs);
        assert (forall x :: x in r <==> x in StepSet(s, op)) <==> (forall x :: x in r <==> x in ks && x !in subs) by {
          forall x ensures x in StepSet(s, op) <==> x in ks && x !in subs {
          }
        }
    }
  }

  /** Over any safe run the list is sorted and holds the keys added and not since deleted. */
  lemma {:induction false} RunIsSet(ks: seq<Key>, s: set<Key>, ops: seq<ListOp>)
    requires Strict(ks) && AllPlain(ks) && SafeRun(ks, ops) && forall x :: x in ks <==> x in s
    ensures Strict(RunList(ks, ops)) && AllPlain(RunList(ks, ops))
    ensures forall x :: x in RunList(ks, ops) <==> x in RunSet(s, ops)
    decreases |ops|
  {
    hide StepList, StepSet, Safe, WellFormedOp, Strict, Plain;
    if ops != [] {
      StepExactly(ks, s, ops[0]);
      RunIsSet(StepList(ks, ops[0]), StepSet(s, ops[0]), ops[1..]);
    }
  }

  /** Keys of fifteen bytes or more fill the value before they exceed the column limit. */
  lemma {:induction false} LongKeysCount(ks: seq<Key>)
    requires forall k | k in ks :: |k| >= 15
    ensures |Pieces(ks)| >= 16 * |ks|
    decreases |ks|
  {
    if ks != [] {
      LongKeysCount(ks[..|ks| - 1]);
      assert ks[|ks| - 1] in ks;
    }
  }

  lemma LongKeysAreSafe(ks: seq<Key>, op: ListOp)
    requires forall k | k in ks :: |k| >= 15
    requires ValueLength(ks) < MAX_SIZE + 4
    ensures Safe(ks, op)
  {
    if ks != [] {
      LongKeysCount(ks);
      JoinLength(ks);
    }
  }

  /** Two-byte keys in ascending order. */
  function Short(i: nat): Key
    requires i < 8192
  {
    [2 + i / 64, 2 + i % 64]
  }

  /**
    4097 keys added one after the other, each of them properly, fit the value; adding the 4096th of
    them again then stores it twice.
   */
  lemma TooManyKeys()
    ensures var ks := Shorts(MAX_COUNT + 1);
            && SafeRun([], AddShorts(MAX_COUNT + 1)) && RunList([], AddShorts(MAX_COUNT + 1)) == ks
            && Strict(ks) && AllPlain(ks) && !Refused(ks, [ks[MAX_COUNT - 1]])
            && !Strict(AddKeys(ks, [ks[MAX_COUNT - 1]]))
  {
    hide Join, AddKeys, SafeRun, RunList;
    ShortsReached(MAX_COUNT + 1);
    var ks := Shorts(MAX_COUNT + 1);
    ShortsStrict(MAX_COUNT + 1);
    JoinLength(ks);
    var k := ks[MAX_COUNT - 1];
    PiecesOne(k);
    Irreflexive(k);
    assert Less(k, ks[MAX_COUNT]);
    Asymmetric(k, ks[MAX_COUNT]);
    assert [k][0] == k && !Clear(ks, k);
    AddExactly(ks, [k]);
  }

  lemma ShortOrder(i: nat, j: nat)
    requires i < j < 8192
    ensures Less(Short(i), Short(j))
  {
  }

  lemma {:induction false} ShortLength(ks: seq<Key>)
    requires forall k | k in ks :: |k| == 2
    ensures |Pieces(ks)| == 3 * |ks|
    decreases |ks|
  {
    if ks != [] {
      ShortLength(ks[..|ks| - 1]);
      assert ks[|ks| - 1] in ks;
    }
  }

  function Shorts(n: nat): (ks: seq<Key>)
    requires n <= 8192
    ensures |ks| == n
  {
    seq(n, i requires 0 <= i < n => Short(i))
  }

  lemma ShortsStrict(n: nat)
    requires n <= 8192
    ensures Strict(Shorts(n)) && AllPlain(Shorts(n)) && |Pieces(Shorts(n))| == 3 * n
  {
    var ks := Shorts(n);
    forall i, j | 0 <= i < j < |ks| ensures Less(ks[i], ks[j]) {
      ShortOrder(i, j);
    }
    ShortLength(ks);
  }

  /** Strict lists with the same keys are the same list. */
  lemma {:induction false} StrictUnique(a: seq<Key>, b: seq<Key>)
    requires Strict(a) && Strict(b) && forall x :: x in a <==> x in b
    ensures a == b
    decreases |a|
  {
    hide Less;
    assert |b| > 0 ==> b[0] in b;
    if a != [] {
      assert a[0] in a;
      assert a[0] == b[0] by {
        if a[0] != b[0] {
          FirstBelow(a, b[0]);
          FirstBelow(b, a[0]);
          Asymmetric(a[0], b[0]);
        }
      }
      StrictTail(a);
      StrictTail(b);
      forall x ensures x in a[1..] <==> x in b[1..] {
        TailHolds(a, x);
        TailHolds(b, x);
      }
      StrictUnique(a[1..], b[1..]);
      assert a == [a[0]] + a[1..] && b == [b[0]] + b[1..];
    }
  }

  lemma FirstBelow(a: seq<Key>, x: Key)
    requires a != [] && Strict(a) && x in a && x != a[0]
    ensures Less(a[0], x)
  {
    hide Less;
    var i :| 0 <= i < |a| && a[i] == x;
  }

  lemma TailHolds(a: seq<Key>, x: Key)
    requires a != [] && Strict(a)
    ensures x in a[1..] <==> x in a && x != a[0]
  {
    hide Less;
    if x == a[0] && x in a[1..] {
      var i :| 0 <= i < |a[1..]| && a[1..][i] == x;
      assert Less(a[0], a[i + 1]);
      Irreflexive(x);
    }
    if x in a && x != a[0] {
      var i :| 0 <= i < |a| && a[i] == x;
      assert a[1..][i - 1] == x;
    }
  }

  /** Adding the next short key to a list the column limit still covers appends it. */
  lemma AddNext(n: nat)
    requires n <= MAX_COUNT
    ensures var op := Put([Short(n)], true);
            WellFormedOp(Shorts(n), op) && Safe(Shorts(n), op) && StepList(Shorts(n), op) == Shorts(n + 1)
  {
    hide AddKeys, Join, Strict, Plain, Less, Pieces;
    var ks, k := Shorts(n), Short(n);
    ShortsStrict(n);
    ShortsStrict(n + 1);
    OneKey(k);
    if n > 0 {
      JoinLength(ks);
    }
    AddExactly(ks, [k]);
    var longer := Shorts(n + 1);
    assert longer == ks + [k];
    StrictUnique(AddKeys(ks, [k]), longer);
  }

  lemma OneKey(k: Key)
    requires Plain(k) && |k| == 2
    ensures AllPlain([k]) && Ascending([k]) && |Pieces([k])| == 3
  {
    PiecesOne(k);
  }

  function AddShorts(n: nat): (ops: seq<ListOp>)
    requires n <= MAX_COUNT + 1
  {
    seq(n, i requires 0 <= i < n => Put([Short(i)], true))
  }

  lemma {:induction false} ShortsReached(n: nat)
    requires n <= MAX_COUNT + 1
    ensures SafeRun([], AddShorts(n)) && RunList([], AddShorts(n)) == Shorts(n)
    decreases n
  {
    hide AddKeys, WellFormedOp, Safe, StepList;
    if n > 0 {
      ShortsReached(n - 1);
      AddNext(n - 1);
      assert AddShorts(n) == AddShorts(n - 1) + [Put([Short(n - 1)], true)];
      RunOneMore([], AddShorts(n - 1), Put([Short(n - 1)], true));
    }
  }

  lemma {:induction false} RunOneMore(ks: seq<Key>, ops: seq<ListOp>, op: ListOp)
    requires SafeRun(ks, ops) && WellFormedOp(RunList(ks, ops), op) && Safe(RunList(ks, ops), op)
    ensures SafeRun(ks, ops + [op]) && RunList(ks, ops + [op]) == StepList(RunList(ks, ops), op)
    decreases |ops|
  {
    hide StepList, WellFormedOp, Safe;
    if ops == [] {
      assert ops + [op] == [op] && [op][1..] == [];
      assert SafeRun(StepList(ks, op), []) && RunList(StepList(ks, op), []) == StepList(ks, op);
    } else {
      RunOneMore(StepList(ks, ops[0]), ops[1..], op);
      assert (ops + [op])[1..] == ops[1..] + [op];
    }
  }
}
