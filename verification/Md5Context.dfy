/** The MD5 context: state, count words and block buffer, updated in place. */
module Md5Context {
  import opened Bytes
  import opened Md5

  class Context {
    const transform: Transform
    const buffer: array<Byte>
    var state: State
    var low: Word
    var high: Word
    ghost var message: seq<Byte>

    /** The context of a message: whole blocks are in the state, the rest waits in the buffer. */
    ghost predicate Valid()
      reads this, buffer
    {
      && buffer.Length == 64
      && low == Low(|message|) && high == High(|message|)
      && Absorbed(transform, state, buffer[..|message| % 64], message)
    }

    /** `my_md5_init` */
    constructor (transform: Transform)
      ensures Valid() && message == [] && this.transform == transform && fresh(buffer)
    {
      this.transform := transform;
      state, low, high := INITIAL, 0, 0;
      buffer := new Byte[64];
      message := [];
      new;
      Fresh(transform);
      assert buffer[..0] == [];
    }

    /** Adds to the bit count, carrying from word to word. */
    method Count(ghost n: nat, len: nat)
      requires len < WORD && low == Low(n) && high == High(n)
      modifies this`low, this`high
      ensures low == Low(n + len) && high == High(n + len)
    {
      hide Low, High;
      CountBits(n, len);
      ghost var words: int := high;
      var add := 8 * len % WORD;
      low := (low + add) % WORD;
      ghost var carry := if low < add then 1 else 0;
      if low < add {
        high := (high + 1) % WORD;
      }
      ModAdd(words + carry, len / 0x2000_0000);
      high := (high + len / 0x2000_0000) % WORD;
    }

    /**
      Transforms the whole blocks of the input from `part` on, and returns where they end. `outside`
      says that the loop comes to a block that is not all of the input; the model stops before it.
     */
    method Blocks(input: seq<Byte>, part: nat, ghost m: seq<Byte>) returns (i: nat, outside: bool)
      requires 1 <= part <= |input| < WORD
      requires Absorbed(transform, state, [], m + input[..part])
      modifies this`state
      ensures outside <==> !Indexable(part, |input|)
      ensures i <= |input| && |input| - i < 64 && Absorbed(transform, state, [], m + input[..i])
    {
      hide Absorbed, Indexable, LastIndex;
      var len := |input|;
      i, outside := part, false;
      StartsInRange(part, len);
      while (i + 63) % WORD < len
        invariant part <= i <= LastIndex(part, len) <= len && (i - part) % 64 == 0 && !outside
        invariant Absorbed(transform, state, [], m + input[..i])
        decreases len - i
      {
        InRange(part, len, i);
        if i + 64 > len {
          return i, true;
        }
        Block(transform, state, m + input[..i], input[i..i + 64]);
        assert m + input[..i] + input[i..i + 64] == m + input[..i + 64];
        state := transform(state, input[i..i + 64]);
        i := (i + 64) % WORD;
      }
      InRange(part, len, i);
    }

    /** `my_md5_update`; `outside` says that bytes behind the input would be transformed. */
    method Update(input: seq<Byte>) returns (outside: bool)
      requires Valid() && |input| < WORD
      modifies this, buffer
      ensures outside <==> !Indexable(64 - |old(message)| % 64, |input|)
      ensures !outside ==> Valid() && message == old(message) + input
    {
      hide Absorbed, Low, High, Indexable, Fold;
      var len := |input|;
      ghost var m := message;
      IndexIs(|m|);
      var index := low / 8 % 64;
      Count(|m|, len);
      message := m + input;
      var part := 64 - index;
      var i := 0;
      outside := false;
      if len >= part {
        FillBuffer(index, input[..part], m);
        i, outside := Blocks(input, part, m);
        if outside {
          return;
        }
        index := 0;
      } else {
        NoBlock(part, len);
        assert m + input[..i] == m;
      }
      KeepRest(index, input[i..], m + input[..i]);
      assert m + input[..i] + input[i..] == m + input;
    }

    /** Completes the block in the buffer and transforms it. */
    method FillBuffer(index: nat, more: seq<Byte>, ghost m: seq<Byte>)
      requires buffer.Length == 64 && index + |more| == 64 && Absorbed(transform, state, buffer[..index], m)
      modifies this`state, buffer
      ensures Absorbed(transform, state, [], m + more)
    {
      hide Absorbed;
      ghost var rest := buffer[..index];
      CopyIn(buffer, index, more);
      assert buffer[..] == buffer[..64] == rest + more;
      Fill(transform, state, rest, m, more);
      state := transform(state, buffer[..]);
    }

    /** Keeps what does not fill a block. */
    method KeepRest(index: nat, more: seq<Byte>, ghost m: seq<Byte>)
      requires buffer.Length == 64 && index + |more| < 64 && Absorbed(transform, state, buffer[..index], m)
      modifies buffer
      ensures Absorbed(transform, state, buffer[..|m + more| % 64], m + more)
    {
      hide Absorbed;
      ghost var rest := buffer[..index];
      CopyIn(buffer, index, more);
      Rest(transform, state, rest, m, more);
    }

    /** `my_md5_final` */
    method Final() returns (digest: seq<Byte>)
      requires Valid()
      modifies this, buffer
      ensures digest == Digest(transform, old(message))
      ensures low == 0 && high == 0 && state == State(0, 0, 0, 0) && buffer[..] == Zeros(64)
    {
      hide Absorbed, Fold, LittleEndian, Indexable, Low, High, Zeros;
      ghost var m := message;
      var bits := LittleEndian(low) + LittleEndian(high);
      IndexIs(|m|);
      var index := low / 8 % 64;
      var padLen := if index < 56 then 56 - index else 120 - index;
      PadLength(|m|);
      Short(|m|, padLen);
      var outside := Update([0x80] + Zeros(padLen - 1));
      Short(|message|, 8);
      outside := Update(bits);
      PaddedIs(m, bits, padLen);
      PaddedFills(m);
      Finished(transform, state, buffer[..|message| % 64], message);
      digest := LittleEndian(state.a) + LittleEndian(state.b) + LittleEndian(state.c) + LittleEndian(state.d);
      state, low, high := State(0, 0, 0, 0), 0, 0;
      forall j | 0 <= j < 64 {
        buffer[j] := 0;
      }
    }
  }

  /** The whole blocks of `m` are in the state and `rest` is what remains. */
  ghost predicate Absorbed(t: Transform, s: State, rest: seq<Byte>, m: seq<Byte>) {
    && |rest| < 64 && |rest| <= |m| && (|m| - |rest|) % 64 == 0
    && rest == m[|m| - |rest|..] && s == Fold(t, INITIAL, m[..|m| - |rest|])
  }

  lemma Fill(t: Transform, s: State, rest: seq<Byte>, m: seq<Byte>, more: seq<Byte>)
    requires Absorbed(t, s, rest, m) && |rest| + |more| == 64
    ensures Absorbed(t, t(s, rest + more), [], m + more)
  {
    hide Fold;
    var w, all := m[..|m| - |rest|], m + more;
    assert m == w + rest && all == w + (rest + more);
    FoldStep(t, INITIAL, w, rest + more);
    assert all[..|all| - 0] == all && all[|all| - 0..] == [];
  }

  lemma Block(t: Transform, s: State, m: seq<Byte>, block: seq<Byte>)
    requires Absorbed(t, s, [], m) && |block| == 64
    ensures Absorbed(t, t(s, block), [], m + block)
  {
    Fill(t, s, [], m, block);
    assert [] + block == block;
  }

  lemma Rest(t: Transform, s: State, rest: seq<Byte>, m: seq<Byte>, more: seq<Byte>)
    requires Absorbed(t, s, rest, m) && |rest| + |more| < 64
    ensures Absorbed(t, s, rest + more, m + more) && |rest + more| == |m + more| % 64
  {
    hide Fold;
    var w, all := m[..|m| - |rest|], m + more;
    assert m == w + rest && all == w + (rest + more);
    assert all[..|w|] == w && all[|w|..] == rest + more;
    Remainder(|w|, |rest + more|);
  }

  lemma Remainder(w: nat, r: nat)
    requires w % 64 == 0 && r < 64
    ensures (w + r) % 64 == r
  {
  }

  lemma Finished(t: Transform, s: State, rest: seq<Byte>, m: seq<Byte>)
    requires Absorbed(t, s, rest, m) && |m| % 64 == 0
    ensures s == Fold(t, INITIAL, m)
  {
    hide Fold;
    Remainder(|m| - |rest|, |rest|);
    assert m[..|m| - 0] == m;
  }

  /** The number of padding bytes, the one bit included. */
  lemma PadLength(n: nat)
    ensures var index := n % 64;
            (if index < 56 then 56 - index else 120 - index) == (55 - n) % 64 + 1
  {
  }

  lemma Short(n: nat, len: nat)
    requires len <= 128
    ensures Indexable(64 - n % 64, len)
  {
  }

  lemma PaddedIs(m: seq<Byte>, bits: seq<Byte>, padLen: nat)
    requires padLen == (55 - |m|) % 64 + 1 && bits == LittleEndian(Low(|m|)) + LittleEndian(High(|m|))
    ensures m + ([0x80] + Zeros(padLen - 1)) + bits == Padded(m)
  {
  }

  lemma Fresh(t: Transform)
    ensures Absorbed(t, INITIAL, [], []) && Low(0) == 0 && High(0) == 0
  {
  }

  /** The loop index up to the last whole block: there the loop stops, unless its condition wraps. */
  lemma InRange(part: nat, len: nat, i: nat)
    requires 1 <= part <= len < WORD && part <= i <= LastIndex(part, len) && (i - part) % 64 == 0
    ensures i < LastIndex(part, len) ==> (i + 63) % WORD < len && i + 64 <= LastIndex(part, len) <= len
    ensures i < LastIndex(part, len) ==> (i + 64) % WORD == i + 64
    ensures i == LastIndex(part, len) ==> len - i < 64 && ((i + 63) % WORD < len <==> !Indexable(part, len))
  {
  }

  lemma StartsInRange(part: nat, len: nat)
    requires part <= len
    ensures part <= LastIndex(part, len) <= len
  {
  }

  lemma NoBlock(part: nat, len: nat)
    requires len < part && len < WORD
    ensures Indexable(part, len)
  {
  }

  method CopyIn(buffer: array<Byte>, p: nat, s: seq<Byte>)
    requires p + |s| <= buffer.Length
    modifies buffer
    ensures buffer[..p + |s|] == old(buffer[..p]) + s
  {
    forall j | 0 <= j < |s| {
      buffer[p + j] := s[j];
    }
  }

  function Concat(chunks: seq<seq<Byte>>): seq<Byte>
    decreases |chunks|
  {
    if chunks == [] then [] else Concat(chunks[..|chunks| - 1]) + chunks[|chunks| - 1]
  }

  /** Chunk i is taken whole, given the length of what comes before it. */
  predicate ChunkInside(chunks: seq<seq<Byte>>, i: nat)
    requires i < |chunks|
  {
    Indexable(64 - |Concat(chunks[..i])| % 64, |chunks[i]|)
  }

  /**
    However a message is cut into chunks, the digest is that of the message, unless the update loop
    runs past the end of a chunk.
   */
  method Hash(transform: Transform, chunks: seq<seq<Byte>>) returns (digest: seq<Byte>, outside: bool)
    requires forall i | 0 <= i < |chunks| :: |chunks[i]| < WORD
    ensures outside <==> exists i | 0 <= i < |chunks| :: !ChunkInside(chunks, i)
    ensures !outside ==> digest == Digest(transform, Concat(chunks))
    ensures (forall i | 0 <= i < |chunks| :: |chunks[i]| <= WORD - 64) ==> !outside
  {
    hide Digest, ChunkInside, Low, High, Absorbed;
    var context := new Context(transform);
    digest := [];
    var i := 0;
    while i < |chunks|
      invariant 0 <= i <= |chunks| && context.Valid() && context.message == Concat(chunks[..i])
      invariant context.transform == transform && fresh(context) && fresh(context.buffer)
      invariant forall j | 0 <= j < i :: ChunkInside(chunks, j)
    {
      NextChunk(chunks, i);
      outside := context.Update(chunks[i]);
      if outside {
        return;
      }
      i := i + 1;
    }
    assert chunks[..i] == chunks;
    outside := false;
    digest := context.Final();
  }

  lemma NextChunk(chunks: seq<seq<Byte>>, i: nat)
    requires i < |chunks| && |chunks[i]| < WORD
    ensures Concat(chunks[..i + 1]) == Concat(chunks[..i]) + chunks[i]
    ensures ChunkInside(chunks, i) <==> Indexable(64 - |Concat(chunks[..i])| % 64, |chunks[i]|)
    ensures |chunks[i]| <= WORD - 64 ==> ChunkInside(chunks, i)
  {
    hide Indexable;
    IndexableExactly(|chunks[i]|);
    assert chunks[..i + 1][..i] == chunks[..i];
  }
}
