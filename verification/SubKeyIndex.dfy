/** The sub-key index of an object: list values rewritten through a buffer by merge and difference loops. */
module SubKeyIndex {
  import opened Bytes
  import opened Lex
  import opened SubKeyLists

  const BUFFER_SIZE := 4 + MAX_SIZE

  /** The list value, or none. */
  function Stored(ks: seq<Key>): Option<seq<Byte>> {
    if ks == [] then None else Some(PutInt(0) + Join(ks))
  }

  lemma {:induction false} JoinSplit(s: seq<Byte>, max: nat)
    requires max > 0
    ensures Columns(s, max) != [] && Join(Columns(s, max)) == s
    decreases max
  {
    hide Join, Columns;
    ColumnsStep(s, max);
    var i := Cut(s);
    if max == 1 || i == |s| {
      JoinOne([s]);
    } else {
      var rest := Columns(s[i + 1..], max - 1);
      JoinSplit(s[i + 1..], max - 1);
      assert ([s[..i]] + rest)[1..] == rest;
      JoinCons([s[..i]] + rest);
      assert s == s[..i] + ([SEPARATOR] + s[i + 1..]);
    }
  }

  /** A value written from columns is the value of the list it spells. */
  lemma StoredWritten(cols: seq<Key>)
    ensures Stored(cols) == Stored(Written(cols)) && ValueLength(cols) == ValueLength(Written(cols))
  {
    hide Join, Columns;
    if cols != [] {
      JoinSplit(Join(cols), |Join(cols)| + 1);
    }
  }

  /** The value of a sorted list that fits the buffers. */
  ghost predicate Holds(value: Option<seq<Byte>>, ks: seq<Key>) {
    Strict(ks) && AllPlain(ks) && value == Stored(ks) && ValueLength(ks) < BUFFER_SIZE
  }

  lemma ReadLength(ks: seq<Key>)
    ensures |Pieces(Read(ks))| == |Pieces(ks)|
  {
    if |ks| > MAX_COUNT {
      var p, q := ks[..MAX_COUNT - 1], Tail(ks);
      assert ks == p + q;
      PiecesConcat(p, q);
      PiecesConcat(p, [Join(q)]);
      PiecesOne(Join(q));
      PiecesStart(q);
    }
  }

  lemma PiecesSnoc(ks: seq<Key>, k: Key)
    ensures Pieces(ks + [k]) == Pieces(ks) + [SEPARATOR] + k
  {
  }

  lemma PiecesFrom(ks: seq<Key>, i: nat)
    requires i < |ks|
    ensures |Pieces(ks[i..])| == 1 + |ks[i]| + |Pieces(ks[i + 1..])|
  {
    PiecesStart(ks[i..]);
  }

  lemma ColumnsStep(s: seq<Byte>, max: nat)
    requires max > 0
    ensures var i := Cut(s);
            Columns(s, max) == if max == 1 || i == |s| then [s] else [s[..i]] + Columns(s[i + 1..], max - 1)
  {
  }

  /** `splitEx` */
  method SplitEx(src: seq<Byte>, max: nat) returns (cols: seq<Key>)
    requires max > 0
    ensures cols == Columns(src, max)
  {
    hide Cut, Columns;
    cols := [];
    var p := src;
    while true
      invariant |cols| < max && Columns(src, max) == cols + Columns(p, max - |cols|)
      decreases |p|
    {
      ColumnsStep(p, max - |cols|);
      var i := Cut(p);
      if |cols| + 1 >= max || i == |p| {
        cols := cols + [p];
        return;
      }
      assert cols + ([p[..i]] + Columns(p[i + 1..], max - |cols| - 1))
          == cols + [p[..i]] + Columns(p[i + 1..], max - |cols| - 1);
      cols, p := cols + [p[..i]], p[i + 1..];
    }
  }

  /** `bsearch`, on sorted columns. */
  method Search(cols: seq<Key>, key: Key) returns (i: nat)
    requires Strict(cols)
    ensures i <= |cols| && (i < |cols| ==> cols[i] == key) && (i == |cols| ==> key !in cols)
  {
    hide Less;
    var low, high := 0, |cols|;
    while low < high
      invariant 0 <= low <= high <= |cols|
      invariant forall j | 0 <= j < low :: Less(cols[j], key)
      invariant forall j | high <= j < |cols| :: Less(key, cols[j])
    {
      var mid := (low + high) / 2;
      Total(key, cols[mid]);
      if key == cols[mid] {
        return mid;
      } else if Less(key, cols[mid]) {
        forall j | mid < j < |cols| ensures Less(key, cols[j]) {
          Transitive(key, cols[mid], cols[j]);
        }
        high := mid;
      } else {
        forall j | 0 <= j < mid ensures Less(cols[j], key) {
          Transitive(cols[j], cols[mid], key);
        }
        low := mid + 1;
      }
    }
    i := |cols|;
    Irreflexive(key);
  }

  /** A separator and a key at the write position. */
  method PutKey(buffer: array<Byte>, p: nat, k: Key, ghost out: seq<Key>) returns (q: nat)
    requires 3 <= p && p + 1 + |k| <= buffer.Length && buffer[3..p] == Pieces(out)
    modifies buffer
    ensures q == p + 1 + |k| && buffer[3..q] == Pieces(out + [k])
  {
    buffer[p] := SEPARATOR;
    forall i | 0 <= i < |k| {
      buffer[p + 1 + i] := k[i];
    }
    q := p + 1 + |k|;
    PiecesSnoc(out, k);
    assert buffer[3..q] == old(buffer[3..p]) + [SEPARATOR] + k;
  }

  /** The copying loops. */
  method PutKeys(buffer: array<Byte>, p: nat, keys: seq<Key>, ghost out: seq<Key>) returns (q: nat)
    requires 3 <= p && p + |Pieces(keys)| <= buffer.Length && buffer[3..p] == Pieces(out)
    modifies buffer
    ensures q == p + |Pieces(keys)| && buffer[3..q] == Pieces(out + keys)
  {
    hide Pieces;
    q := p;
    assert keys[0..] == keys && out + keys[..0] == out;
    var i := 0;
    while i < |keys|
      invariant 0 <= i <= |keys| && 3 <= q && q + |Pieces(keys[i..])| == p + |Pieces(keys)|
      invariant q <= buffer.Length && buffer[3..q] == Pieces(out + keys[..i])
    {
      PiecesFrom(keys, i);
      q := PutKey(buffer, q, keys[i], out + keys[..i]);
      assert out + keys[..i] + [keys[i]] == out + keys[..i + 1];
      i := i + 1;
    }
    assert keys[i..] == [] && out + keys[..i] == out + keys;
    PiecesNone();
  }

  lemma PiecesNone()
    ensures Pieces([]) == []
  {
  }

  /** Where a new key goes: before the first column above it. */
  method Position(cols: seq<Key>, key: Key) returns (i: nat)
    ensures i <= |cols| && (i < |cols| ==> Less(key, cols[i]))
    ensures forall j | 0 <= j < i :: !Less(key, cols[j])
  {
    i := 0;
    while i < |cols| && !Less(key, cols[i])
      invariant 0 <= i <= |cols| && forall j | 0 <= j < i :: !Less(key, cols[j])
    {
      i := i + 1;
    }
  }

  /** The duplicates of a key just taken from the batch. */
  method SkipEqual(subs: seq<Key>, from: nat) returns (i: nat)
    requires 0 < from <= |subs|
    ensures from <= i <= |subs| && subs[i..] == Skip(subs[from..], subs[from - 1])
  {
    i := from;
    while i < |subs| && subs[i] == subs[from - 1]
      invariant from <= i <= |subs| && Skip(subs[from..], subs[from - 1]) == Skip(subs[i..], subs[from - 1])
    {
      i := i + 1;
    }
  }

  lemma MergeFirst(subs: seq<Key>, cols: seq<Key>, i: nat, j: nat)
    requires i < |subs| && j <= |cols|
    ensures var rest := Skip(subs[i + 1..], subs[i]);
            && (j == |cols| || Less(subs[i], cols[j]) ==>
                  Merge(subs[i..], cols[j..]) == [subs[i]] + Merge(rest, cols[j..]))
            && (j < |cols| && subs[i] == cols[j] ==>
                  Merge(subs[i..], cols[j..]) == [subs[i]] + Merge(rest, cols[j + 1..]))
            && (j < |cols| && subs[i] != cols[j] && !Less(subs[i], cols[j]) ==>
                  Merge(subs[i..], cols[j..]) == [cols[j]] + Merge(subs[i..], cols[j + 1..]))
  {
    hide Less, Skip;
    assert subs[i..][1..] == subs[i + 1..];
    if j < |cols| {
      assert cols[j..][1..] == cols[j + 1..];
      Irreflexive(subs[i]);
    }
  }

  /** The merge loops of a batch add; `j` columns are left to copy. */
  method MergeInto(buffer: array<Byte>, subs: seq<Key>, cols: seq<Key>)
    returns (p: nat, j: nat, added: nat, ghost out: seq<Key>)
    requires 3 + |Pieces(cols)| + |Pieces(subs)| <= buffer.Length
    modifies buffer
    ensures j <= |cols| && 3 <= p && p + |Pieces(cols[j..])| <= 3 + |Pieces(cols)| + |Pieces(subs)|
    ensures buffer[3..p] == Pieces(out)
    ensures Merge(subs, cols) == out + cols[j..] && (added == 0 ==> out == cols[..j])
  {
    hide Less, Skip, Merge, Pieces;
    p, j, added, out := 3, 0, 0, [];
    var i := 0;
    assert subs[0..] == subs && cols[0..] == cols;
    PiecesNone();
    while i < |subs|
      invariant 0 <= i <= |subs| && 0 <= j <= |cols| && 3 <= p <= buffer.Length && buffer[3..p] == Pieces(out)
      invariant Merge(subs, cols) == out + Merge(subs[i..], cols[j..])
      invariant p + |Pieces(cols[j..])| + |Pieces(subs[i..])| <= 3 + |Pieces(cols)| + |Pieces(subs)|
      invariant added == 0 ==> out == cols[..j]
      decreases |subs| - i + |cols| - j
    {
      MergeFirst(subs, cols, i, j);
      PiecesFrom(subs, i);
      if j < |cols| {
        PiecesFrom(cols, j);
      }
      ghost var was := out;
      if j < |cols| && subs[i] != cols[j] && !Less(subs[i], cols[j]) {
        p := PutKey(buffer, p, cols[j], out);
        out, j := out + [cols[j]], j + 1;
      } else {
        p := PutKey(buffer, p, subs[i], out);
        out := out + [subs[i]];
        if j < |cols| && subs[i] == cols[j] {
          j := j + 1;
        } else {
          added := added + 1;
        }
        ghost var from := i + 1;
        i := SkipEqual(subs, i + 1);
        PiecesSlice(subs, from, i);
      }
      assert out == was + [out[|was|]];
    }
    MergeNone(cols[j..]);
    assert subs[i..] == [];
  }

  lemma MergeNone(cols: seq<Key>)
    ensures Merge([], cols) == cols
  {
  }

  lemma PiecesSlice(ks: seq<Key>, a: nat, b: nat)
    requires a <= b <= |ks|
    ensures |Pieces(ks[b..])| <= |Pieces(ks[a..])|
  {
    PiecesConcat(ks[a..b], ks[b..]);
    assert ks[a..] == ks[a..b] + ks[b..];
  }

  lemma DiffFirst(subs: seq<Key>, cols: seq<Key>, i: nat, j: nat)
    requires i < |subs| && j < |cols|
    ensures (Less(subs[i], cols[j]) ==> Diff(subs[i..], cols[j..]) == Diff(subs[i + 1..], cols[j..]))
         && (subs[i] == cols[j] ==> Diff(subs[i..], cols[j..]) == Diff(subs[i + 1..], cols[j + 1..]))
         && (subs[i] != cols[j] && !Less(subs[i], cols[j]) ==>
               Diff(subs[i..], cols[j..]) == [cols[j]] + Diff(subs[i..], cols[j + 1..]))
  {
    hide Less;
    assert subs[i..][1..] == subs[i + 1..] && cols[j..][1..] == cols[j + 1..];
    Irreflexive(subs[i]);
  }

  /** The difference loops of a batch delete. */
  method DiffInto(buffer: array<Byte>, subs: seq<Key>, cols: seq<Key>) returns (p: nat, ghost out: seq<Key>)
    requires 3 + |Pieces(cols)| <= buffer.Length
    modifies buffer
    ensures 3 <= p <= 3 + |Pieces(cols)| && buffer[3..p] == Pieces(out) && out == Diff(subs, cols)
  {
    hide Less, Diff, Pieces;
    p, out := 3, [];
    var i, j := 0, 0;
    assert subs[0..] == subs && cols[0..] == cols;
    PiecesNone();
    while i < |subs| && j < |cols|
      invariant 0 <= i <= |subs| && 0 <= j <= |cols| && 3 <= p <= buffer.Length && buffer[3..p] == Pieces(out)
      invariant Diff(subs, cols) == out + Diff(subs[i..], cols[j..])
      invariant p + |Pieces(cols[j..])| <= 3 + |Pieces(cols)|
      decreases |subs| - i + |cols| - j
    {
      DiffFirst(subs, cols, i, j);
      PiecesFrom(cols, j);
      if Less(subs[i], cols[j]) {
        i := i + 1;
      } else if subs[i] == cols[j] {
        i, j := i + 1, j + 1;
      } else {
        ghost var was := out;
        p := PutKey(buffer, p, cols[j], out);
        out, j := out + [cols[j]], j + 1;
        assert out == was + [cols[j - 1]];
      }
    }
    DiffDone(subs[i..], cols[j..]);
    p := PutKeys(buffer, p, cols[j..], out);
    out := out + cols[j..];
  }

  lemma DiffDone(subs: seq<Key>, cols: seq<Key>)
    requires subs == [] || cols == []
    ensures Diff(subs, cols) == cols
  {
  }

  ghost predicate NonEmpty(ks: seq<Key>) { forall k | k in ks :: |k| > 0 }

  lemma ReadNonEmpty(ks: seq<Key>)
    requires AllPlain(ks)
    ensures NonEmpty(Read(ks))
  {
    forall k | k in Read(ks) ensures |k| > 0 {
      if k in ks {
        assert Plain(k);
      } else {
        JoinLength(Tail(ks));
        PiecesLength(Tail(ks));
      }
    }
  }

  /** The value of the list after an operation, which is a sorted list again exactly if the operation was safe. */
  ghost predicate Became(value: Option<seq<Byte>>, ks: seq<Key>, op: ListOp) {
    && value == Stored(StepList(ks, op))
    && (Holds(value, StepList(ks, op)) <==> SafeOrder(ks, op))
  }

  /** Deleting never disturbs the order. */
  ghost predicate SafeOrder(ks: seq<Key>, op: ListOp) { op.Put? ==> Safe(ks, op) }

  class Index {
    var value: Option<seq<Byte>>

    constructor ()
      ensures Holds(value, [])
    {
      value := None;
    }

    /** `key_do_get` */
    method Get(ghost ks: seq<Key>) returns (cols: seq<Key>, length: nat)
      requires Holds(value, ks)
      ensures cols == Read(ks) && length == ValueLength(ks) && Strict(cols)
    {
      hide Join, Columns, Plain, Strict;
      ReadIs(ks);
      if value.None? || |value.value| <= 4 {
        if ks != [] {
          PiecesLength(ks);
          JoinLength(ks);
        }
        return [], 0;
      }
      SplitJoin(ks, MAX_COUNT);
      assert value.value[4..] == Join(ks);
      cols := SplitEx(value.value[4..], MAX_COUNT);
      length := |value.value|;
    }

    /** The store update: a set, or a delete when no key is left. `outcome` is the store's answer,
        `kept` whether a failed set leaves the old value. */
    method Store(buffer: array<Byte>, p: nat, ghost out: seq<Key>, outcome: int, kept: bool) returns (result: int)
      requires 3 <= p <= buffer.Length && buffer.Length == BUFFER_SIZE && buffer[3..p] == Pieces(out)
      requires out != [] ==> p > 4
      modifies this, buffer
      ensures result == if out == [] && old(value).None? then ENOENT else outcome
      ensures outcome == 0 ==> value == Stored(out)
      ensures outcome != 0 ==> value == if out != [] && !kept then None else old(value)
    {
      if p > 4 {
        PutExpiry(buffer, p);
        PiecesStart(out);
        if outcome == 0 {
          assert Join(out) == Pieces(out)[1..];
          value := Some(buffer[..p]);
        } else if !kept {
          value := None;
        }
        return outcome;
      }
      if value.None? {
        return ENOENT;
      }
      if outcome == 0 {
        value := None;
      }
      result := outcome;
    }

    /**
      `key_do_add`: one key. The list afterwards is the merge; a key already there changes nothing,
      a list that would not fit is refused.
     */
    method Add(key: Key, ghost ks: seq<Key>, outcome: int, kept: bool) returns (result: int)
      requires Holds(value, ks) && Plain(key)
      modifies this
      ensures result == if key in Read(ks) then 0 else if Refused(ks, [key]) then ENOSPC else outcome
      ensures outcome == 0 ==> Became(value, ks, Put([key], result == 0))
      ensures outcome != 0 ==> value == if key in Read(ks) || Refused(ks, [key]) || kept then old(value) else None
    {
      hide Less, Strict, Plain, Merge, Read, Join, Columns, Written, Became, Pieces, Ascending;
      PiecesNone();
      var cols, length := Get(ks);
      OneAscends(key);
      var i := Search(cols, key);
      if i < |cols| {
        MergeFound(cols, key);
        Unchanged(ks, Put([key], true));
        return 0;
      }
      PiecesOne(key);
      if length + 1 + |key| >= MAX_SIZE {
        Unchanged(ks, Put([key], false));
        return ENOSPC;
      }
      Fits(ks, [key]);
      i := Position(cols, key);
      ghost var front, back := cols[..i], cols[i..];
      PiecesConcat(front, back);
      assert front + back == cols;
      var buffer := new Byte[BUFFER_SIZE];
      var p := PutKeys(buffer, 3, cols[..i], []);
      assert [] + front == front;
      p := PutKey(buffer, p, key, front);
      p := PutKeys(buffer, p, cols[i..], front + [key]);
      ghost var out := front + [key] + back;
      MergeOne(cols, key, i);
      ReadNonEmpty(ks);
      assert Plain(key);
      PlainNonEmpty([key]);
      assert forall k | k in out :: k in cols || k in [key];
      Filled(out);
      Rewritten(ks, Put([key], true), out);
      result := Store(buffer, p, out, outcome, kept);
    }

    /** `key_do_del`: one key; a key that is not there changes nothing. */
    method Delete(key: Key, ghost ks: seq<Key>, outcome: int, kept: bool) returns (result: int)
      requires Holds(value, ks) && Plain(key)
      modifies this
      ensures result == if key in Read(ks) then outcome else 0
      ensures outcome == 0 ==> Became(value, ks, Take([key]))
      ensures outcome != 0 ==> value == if key !in Read(ks) || Read(ks) == [key] || kept then old(value) else None
    {
      hide Less, Strict, Plain, Diff, Read, Join, Columns, Written, Became, Pieces, Ascending;
      PiecesNone();
      var cols, length := Get(ks);
      OneAscends(key);
      var i := Search(cols, key);
      if i == |cols| {
        DiffMissing(cols, key);
        Unchanged(ks, Take([key]));
        return 0;
      }
      OldFits(ks);
      ghost var front, back := cols[..i], cols[i + 1..];
      PiecesConcat(front, cols[i..]);
      assert front + cols[i..] == cols;
      PiecesFrom(cols, i);
      var buffer := new Byte[BUFFER_SIZE];
      var p := PutKeys(buffer, 3, cols[..i], []);
      assert [] + front == front;
      p := PutKeys(buffer, p, cols[i + 1..], front);
      DiffOne(cols, key, i);
      ReadNonEmpty(ks);
      assert forall k | k in front + back :: k in cols;
      Filled(front + back);
      NotNone(ks);
      Rewritten(ks, Take([key]), front + back);
      result := Store(buffer, p, front + back, outcome, kept);
    }

    /**
      `key_batch_do_add`: a batch of keys in ascending order. Batches of one go the single way; when
      nothing in the batch is new the value is left alone.
     */
    method BatchAdd(subs: seq<Key>, ghost ks: seq<Key>, outcome: int, kept: bool) returns (result: int)
      requires Holds(value, ks) && AllPlain(subs) && Ascending(subs)
      modifies this
      ensures outcome == 0 ==> result == 0 || result == ENOSPC
      ensures outcome == 0 ==> Became(value, ks, Put(subs, result == 0))
      ensures outcome == 0 && |subs| > 1 ==> (result == ENOSPC <==> Refused(ks, subs))
      ensures outcome == 0 && |subs| == 1 ==> (result == ENOSPC <==> subs[0] !in Read(ks) && Refused(ks, subs))
      ensures outcome != 0 ==> value == old(value) || (value == None && !kept)
    {
      hide Less, Strict, Plain, Merge, Read, Join, Columns, Written, Pieces, Ascending, Became;
      if |subs| == 0 {
        MergeNone(Read(ks));
        Unchanged(ks, Put(subs, true));
        return 0;
      }
      if |subs| == 1 {
        assert subs == [subs[0]];
        result := Add(subs[0], ks, outcome, kept);
        return;
      }
      var cols, length := Get(ks);
      var total := Weigh(subs);
      if length + total >= MAX_SIZE {
        Unchanged(ks, Put(subs, false));
        return ENOSPC;
      }
      Fits(ks, subs);
      var buffer := new Byte[BUFFER_SIZE];
      var p, j, added;
      ghost var out;
      p, j, added, out := MergeInto(buffer, subs, cols);
      if added == 0 {
        assert cols[..j] + cols[j..] == cols;
        Unchanged(ks, Put(subs, true));
        return 0;
      }
      p := PutKeys(buffer, p, cols[j..], out);
      out := out + cols[j..];
      MergeIsUnion(subs, cols);
      ReadNonEmpty(ks);
      PlainNonEmpty(subs);
      assert subs[0] in out;
      Filled(out);
      Rewritten(ks, Put(subs, true), out);
      result := Store(buffer, p, out, outcome, kept);
    }

    /** `key_batch_do_del` */
    method BatchDelete(subs: seq<Key>, ghost ks: seq<Key>, outcome: int, kept: bool) returns (result: int)
      requires Holds(value, ks) && AllPlain(subs) && Ascending(subs)
      modifies this
      ensures outcome == 0 ==> Became(value, ks, Take(subs)) && (result == 0 || result == ENOENT)
      ensures outcome == 0 && result == ENOENT ==> ks == []
      ensures outcome != 0 ==> value == old(value) || (value == None && !kept)
    {
      hide Less, Strict, Plain, Diff, Read, Join, Columns, Written, Pieces, Ascending, Became;
      if |subs| == 0 {
        DiffDone(subs, Read(ks));
        Unchanged(ks, Take(subs));
        return 0;
      }
      if |subs| == 1 {
        assert subs == [subs[0]];
        result := Delete(subs[0], ks, outcome, kept);
        return;
      }
      var cols, length := Get(ks);
      OldFits(ks);
      var buffer := new Byte[BUFFER_SIZE];
      var p;
      ghost var out;
      p, out := DiffInto(buffer, subs, cols);
      DiffIsDifference(subs, cols);
      ReadNonEmpty(ks);
      Filled(out);
      NotNone(ks);
      Rewritten(ks, Take(subs), out);
      result := Store(buffer, p, out, outcome, kept);
    }
  }

  /** The length the batch would add, keys already listed included. */
  method Weigh(subs: seq<Key>) returns (total: nat)
    ensures total == |Pieces(subs)|
  {
    total := 0;
    var i := 0;
    assert subs[0..] == subs;
    while i < |subs|
      invariant 0 <= i <= |subs| && total + |Pieces(subs[i..])| == |Pieces(subs)|
    {
      PiecesFrom(subs, i);
      total := total + 1 + |subs[i]|;
      i := i + 1;
    }
  }

  lemma OneAscends(key: Key)
    requires Plain(key)
    ensures AllPlain([key]) && Ascending([key])
  {
  }

  lemma PlainNonEmpty(subs: seq<Key>)
    requires AllPlain(subs)
    ensures NonEmpty(subs)
  {
  }

  lemma NotNone(ks: seq<Key>)
    ensures Stored(ks).None? <==> ks == []
    ensures Read(ks) == [] <==> ks == []
  {
  }

  lemma OldFits(ks: seq<Key>)
    requires ValueLength(ks) < BUFFER_SIZE
    ensures 3 + |Pieces(Read(ks))| < BUFFER_SIZE
  {
    hide Read;
    ReadLength(ks);
    if ks != [] {
      JoinLength(ks);
    }
  }

  /** The loop of a single add is the merge of one key. */
  lemma {:induction false} MergeOne(cols: seq<Key>, key: Key, i: nat)
    requires i <= |cols| && key !in cols
    requires forall j | 0 <= j < i :: !Less(key, cols[j])
    requires i < |cols| ==> Less(key, cols[i])
    ensures Merge([key], cols) == cols[..i] + [key] + cols[i..]
    decreases |cols|
  {
    hide Less;
    assert [key][1..] == [];
    if i == 0 {
      assert Skip([], key) == [];
      assert Merge([], cols) == cols;
    } else {
      MergeOne(cols[1..], key, i - 1);
      assert cols[..i] == [cols[0]] + cols[1..][..i - 1];
    }
  }

  /** A key that is already there leaves the columns as they are. */
  lemma {:induction false} MergeFound(cols: seq<Key>, key: Key)
    requires Strict(cols) && key in cols
    ensures Merge([key], cols) == cols
    decreases |cols|
  {
    hide Less;
    assert [key][1..] == [] && Skip([], key) == [];
    assert cols == [cols[0]] + cols[1..];
    StrictTail(cols);
    if key == cols[0] {
      Irreflexive(key);
    } else {
      Asymmetric(cols[0], key);
      MergeFound(cols[1..], key);
    }
  }

  lemma {:induction false} DiffOne(cols: seq<Key>, key: Key, i: nat)
    requires Strict(cols) && i < |cols| && cols[i] == key
    ensures Diff([key], cols) == cols[..i] + cols[i + 1..]
    decreases |cols|
  {
    hide Less;
    assert [key][1..] == [];
    StrictTail(cols);
    if i == 0 {
      Irreflexive(key);
      assert Diff([], cols[1..]) == cols[1..];
    } else {
      assert cols[i] in cols[1..];
      Asymmetric(cols[0], key);
      DiffOne(cols[1..], key, i - 1);
      assert cols[..i] == [cols[0]] + cols[1..][..i - 1];
    }
  }

  lemma {:induction false} DiffMissing(cols: seq<Key>, key: Key)
    requires Strict(cols) && key !in cols
    ensures Diff([key], cols) == cols
    decreases |cols|
  {
    hide Less;
    assert [key][1..] == [] && Diff([], cols) == cols;
    if cols != [] {
      StrictTail(cols);
      assert cols == [cols[0]] + cols[1..];
      DiffMissing(cols[1..], key);
    }
  }

  /** Writing the columns back gives the list back. */
  lemma WrittenRead(ks: seq<Key>)
    requires Strict(ks) && AllPlain(ks)
    ensures Written(Read(ks)) == ks
  {
    hide Written, Read, Join, Plain;
    var none: seq<Key> := [];
    if |ks| <= MAX_COUNT {
      ReadIs(ks);
      WrittenPlain(ks);
    } else {
      ReadIs(ks);
      var p, q := ks[..MAX_COUNT - 1], Tail(ks);
      var m := p + [Join(q)];
      assert m[..|p|] == p && m[|p| + 1..] == [] && p + q + [] == ks;
      WrittenLump(m, |p|, q);
    }
  }

  /** An operation that leaves the columns as they are leaves the list as it is. */
  lemma Unchanged(ks: seq<Key>, op: ListOp)
    requires Holds(Stored(ks), ks) && AllPlain(op.subs) && Ascending(op.subs)
    requires op.Put? && op.accepted ==> Merge(op.subs, Read(ks)) == Read(ks)
    requires op.Take? ==> Diff(op.subs, Read(ks)) == Read(ks)
    ensures Became(Stored(ks), ks, op)
  {
    hide Less, Strict, Ascending, Plain, Merge, Diff, Written, Join, Clear;
    WrittenRead(ks);
    if op.Put? && op.accepted {
      AddExactly(ks, op.subs);
    }
  }

  /** A freshly written value. */
  lemma Rewritten(ks: seq<Key>, op: ListOp, out: seq<Key>)
    requires Holds(Stored(ks), ks) && AllPlain(op.subs) && Ascending(op.subs)
    requires op.Put? ==> op.accepted && out == Merge(op.subs, Read(ks))
    requires op.Take? ==> out == Diff(op.subs, Read(ks))
    requires |Pieces(out)| + 3 < BUFFER_SIZE
    ensures Became(Stored(out), ks, op)
  {
    hide Less, Strict, Ascending, Plain, Merge, Diff, Written, Join, Clear, Pieces;
    StoredWritten(out);
    if out != [] {
      JoinLength(out);
    }
    StepPlain(ks, op);
    if op.Put? {
      AddExactly(ks, op.subs);
    } else {
      DelExactly(ks, op.subs);
    }
  }

  lemma StepPlain(ks: seq<Key>, op: ListOp)
    requires Strict(ks) && AllPlain(ks) && AllPlain(op.subs) && Ascending(op.subs)
    ensures AllPlain(StepList(ks, op))
  {
    hide Strict, Ascending, Plain, AddKeys, DelKeys, Clear;
    if op.Put? {
      AddExactly(ks, op.subs);
    } else {
      DelExactly(ks, op.subs);
    }
  }

  /** An accepted batch and the old list together fit the buffer. */
  lemma Fits(ks: seq<Key>, subs: seq<Key>)
    requires !Refused(ks, subs)
    ensures 3 + |Pieces(Read(ks))| + |Pieces(subs)| < BUFFER_SIZE
  {
    hide Read;
    ReadLength(ks);
    if ks != [] {
      JoinLength(ks);
    } else {
      assert Pieces(ks) == [];
    }
  }

  lemma Filled(out: seq<Key>)
    requires NonEmpty(out)
    ensures out != [] ==> |Pieces(out)| > 1 && Join(out) != []
  {
  }

  method PutExpiry(buffer: array<Byte>, p: nat)
    requires 4 <= p <= buffer.Length
    modifies buffer
    ensures buffer[..p] == PutInt(0) + old(buffer[4..p])
  {
    var bytes := PutInt(0);
    buffer[0], buffer[1], buffer[2], buffer[3] := bytes[0], bytes[1], bytes[2], bytes[3];
    assert buffer[..p] == buffer[..4] + buffer[4..p];
  }
}
