/** The streaming SHA-256 engine: a hasher that keeps the hash value of the
    whole blocks seen so far and buffers the bytes of an incomplete block,
    proved against the pure definition in Sha256Spec. */
module Sha256Engine {
  import opened Words
  import opened Bytes
  import opened Sha256Spec

  /** Exclusive bound of the source's u64 byte counter. */
  const U64Limit: nat := 0x1_0000_0000_0000_0000

  class Sha256 {
    /** The hash value after the whole blocks processed so far. The source
        holds it as a `[u32; 8]` value inside the struct, so it is a
        sequence here, updated word by word. */
    var state: seq<Word>
    /** The bytes of the current incomplete block, in buffer[..bufferLen]. */
    var buffer: array<Byte>
    var bufferLen: nat
    /** The number of message bytes passed to Update so far. */
    var totalLen: nat
    /** Every byte passed to Update so far, in order. */
    ghost var consumed: seq<Byte>
    /** The prefix of `consumed` already compressed into `state`. */
    ghost var hashed: seq<Byte>

    /** The hasher's state describes the bytes consumed so far: they are
        whole blocks compressed into `state` followed by fewer than 64
        bytes at the start of `buffer`, and totalLen counts them. */
    ghost predicate Valid()
      reads this, buffer
    {
      && |state| == 8 && buffer.Length == 64
      && bufferLen < 64 && |hashed| % 64 == 0
      && consumed == hashed + buffer[..bufferLen]
      && totalLen == |consumed| && totalLen < U64Limit
      && state == HashBlocks(InitialHash, hashed)
    }

    /** The buffering invariant in terms of the consumed bytes alone: the
        state is H(0) compressed over their whole blocks, the buffer holds
        the rest, and bufferLen is totalLen mod 64. */
    lemma Buffered()
      requires Valid()
      ensures state == HashBlocks(InitialHash, WholeBlocks(consumed))
      ensures buffer[..bufferLen] == Tail(consumed) && bufferLen == totalLen % 64
    {
      BlockSplitUnique(hashed, buffer[..bufferLen]);
    }

    /** `Sha256::new`: H(0), an empty buffer, nothing consumed. */
    constructor ()
      ensures Valid() && consumed == [] && totalLen == 0 && bufferLen == 0
      ensures state == InitialHash && fresh(buffer)
    {
      state := InitialHash;
      buffer := new Byte[64](_ => 0);
      bufferLen := 0;
      totalLen := 0;
      consumed := [];
      hashed := [];
    }

    /** `create_message_schedule`: the 64 schedule words of a block. */
    static method CreateMessageSchedule(block: seq<Byte>) returns (ws: seq<Word>)
      requires |block| == 64
      ensures ws == Schedule(block)
    {
      var w := LoadWords(block);
      for i := 16 to 64
        invariant w[..i] == ExpandSchedule(block, i)
      {
        w[i] := WrappingAdd(WrappingAdd(WrappingAdd(SmallSigma1(w[i - 2]), w[i - 7]),
                                        SmallSigma0(w[i - 15])), w[i - 16]);
      }
      ws := w[..];
    }

    /** The first loop of `create_message_schedule`: the block read as
        sixteen big-endian words into the start of a fresh 64-word array. */
    static method LoadWords(block: seq<Byte>) returns (w: array<Word>)
      requires |block| == 64
      ensures fresh(w) && w.Length == 64 && w[..16] == WordsFromBytes(block)
    {
      w := new Word[64](_ => 0);
      for i := 0 to 16
        invariant w[..i] == WordsFromBytes(block[..4 * i])
      {
        var word := WordFromBytes(block[i * 4], block[i * 4 + 1], block[i * 4 + 2], block[i * 4 + 3]);
        ghost var before := w[..i];
        w[i] := word;
        assert WordsFromBytes(block[..4 * (i + 1)]) == before + [word] by {
          ghost var next := block[..4 * (i + 1)];
          assert next[..4 * i] == block[..4 * i];
        }
        assert w[..i + 1] == before + [word];
      }
      assert block[..64] == block;
    }

    /** `process_block`: the schedule of the block, 64 rounds over the
        working variables, then each variable added into the state word in
        the same position. No other field changes. */
    method ProcessBlock(block: seq<Byte>)
      requires |state| == 8 && |block| == 64
      modifies this`state
      ensures state == Compress(old(state), block)
    {
      var w := CreateMessageSchedule(block);
      ghost var hv := state;
      var v := RunRounds(ToVars(state), w);
      AddWorkingVars(v);
      CompressDefinition(hv, block);
    }

    /** The loop of `process_block`: 64 rounds of the T1/T2 update on the
        working variables a..h. */
    static method RunRounds(v0: Vars, w: seq<Word>) returns (v: Vars)
      requires |w| == 64
      ensures v == Rounds(v0, w, 64)
    {
      var a, b, c, d, e, f, g, h := v0.a, v0.b, v0.c, v0.d, v0.e, v0.f, v0.g, v0.h;
      for i := 0 to 64
        invariant Vars(a, b, c, d, e, f, g, h) == Rounds(v0, w, i)
      {
        var t1 := WrappingAdd(WrappingAdd(WrappingAdd(WrappingAdd(h, BigSigma1(e)), Ch(e, f, g)), K[i]), w[i]);
        var t2 := WrappingAdd(BigSigma0(a), Maj(a, b, c));
        h := g;
        g := f;
        f := e;
        e := WrappingAdd(d, t1);
        d := c;
        c := b;
        b := a;
        a := WrappingAdd(t1, t2);
      }
      v := Vars(a, b, c, d, e, f, g, h);
    }

    /** The closing writes of `process_block`: state[j] += v_j, wrapping. */
    method AddWorkingVars(v: Vars)
      requires |state| == 8
      modifies this`state
      ensures state == AddVars(old(state), v)
    {
      state := state[0 := WrappingAdd(state[0], v.a)];
      state := state[1 := WrappingAdd(state[1], v.b)];
      state := state[2 := WrappingAdd(state[2], v.c)];
      state := state[3 := WrappingAdd(state[3], v.d)];
      state := state[4 := WrappingAdd(state[4], v.e)];
      state := state[5 := WrappingAdd(state[5], v.f)];
      state := state[6 := WrappingAdd(state[6], v.g)];
      state := state[7 := WrappingAdd(state[7], v.h)];
    }

    /** `update`: appends data to the message. A partly filled buffer is
        topped up and compressed first, then whole blocks are compressed
        straight from data, and what is left is buffered. */
    method Update(data: seq<Byte>)
      requires Valid() && totalLen + |data| < U64Limit
      modifies this, buffer
      ensures Valid() && consumed == old(consumed) + data
      ensures totalLen == old(totalLen) + |data| && buffer == old(buffer)
    {
      totalLen := totalLen + |data|;
      consumed := consumed + data;
      var offset := 0;
      if bufferLen > 0 {
        var needed := 64 - bufferLen;
        if |data| >= needed {
          TopUp(data);
          offset := needed;
        } else {
          Append(data);
          return;
        }
      }
      while offset + 64 <= |data|
        invariant offset <= |data| && bufferLen == 0 && |hashed| % 64 == 0
        invariant consumed == hashed + data[offset..]
        invariant state == HashBlocks(InitialHash, hashed)
        modifies this`hashed, this`state
      {
        HashBlocksExtend(InitialHash, hashed, data[offset..offset + 64]);
        ProcessBlock(data[offset..offset + 64]);
        Advance(hashed, data, offset, 64);
        NextBlockAligned(|hashed|);
        hashed := hashed + data[offset..offset + 64];
        offset := offset + 64;
      }
      if offset < |data| {
        var remaining := |data| - offset;
        CopyIn(0, data[offset..]);
        bufferLen := remaining;
      }
      assert buffer[..bufferLen] == data[offset..];
    }

    /** The first branch of `update`: the buffered bytes and the first
        bytes of data make a block, which is compressed. */
    method TopUp(data: seq<Byte>)
      requires |state| == 8 && buffer.Length == 64 && 0 < bufferLen < 64
      requires |hashed| % 64 == 0 && 64 - bufferLen <= |data|
      requires consumed == hashed + buffer[..bufferLen] + data
      requires state == HashBlocks(InitialHash, hashed)
      modifies this`hashed, this`bufferLen, this`state, buffer
      ensures bufferLen == 0 && |hashed| % 64 == 0
      ensures consumed == hashed + data[64 - old(bufferLen)..]
      ensures state == HashBlocks(InitialHash, hashed)
    {
      var needed := 64 - bufferLen;
      ghost var held := buffer[..bufferLen];
      CopyIn(bufferLen, data[..needed]);
      ghost var block := buffer[..64];
      HashBlocksExtend(InitialHash, hashed, block);
      ProcessBlock(buffer[..64]);
      Regroup(hashed, held, data, needed);
      NextBlockAligned(|hashed|);
      hashed := hashed + block;
      bufferLen := 0;
    }

    /** The second branch of `update`: data does not complete the block and
        is appended to the buffer. */
    method Append(data: seq<Byte>)
      requires buffer.Length == 64 && bufferLen + |data| < 64
      requires consumed == hashed + buffer[..bufferLen] + data
      modifies this`bufferLen, buffer
      ensures bufferLen == old(bufferLen) + |data|
      ensures consumed == hashed + buffer[..bufferLen]
    {
      ghost var held := buffer[..bufferLen];
      CopyIn(bufferLen, data);
      bufferLen := bufferLen + |data|;
      Assoc(hashed, held, data);
    }

    /** `copy_from_slice` into buffer[at..at + |src|]. */
    method CopyIn(at: nat, src: seq<Byte>)
      requires buffer.Length == 64 && at + |src| <= 64
      modifies buffer
      ensures buffer[..at + |src|] == old(buffer[..at]) + src
      ensures buffer[at + |src|..] == old(buffer[at + |src|..])
    {
      forall i | at <= i < at + |src| {
        buffer[i] := src[i - at];
      }
      assert buffer[..at + |src|] == old(buffer[..at]) + src by {
        assert buffer[..at] == old(buffer[..at]);
      }
    }

    /** `finalize`: pads and compresses the buffered tail, then serialises
        the state. The source consumes the hasher; here it is left without
        its invariant. */
    method Finalize() returns (digest: seq<Byte>)
      requires Valid() && totalLen < MaxMessageLength
      modifies this, buffer
      ensures digest == Hash(old(consumed))
    {
      HashFromTail(hashed, buffer[..bufferLen]);
      PadLastBlocks();
      digest := Serialize();
    }

    /** The padding part of `finalize`: the 0x80 byte after the buffered
        tail, zeros up to offset 56, and the message length in bits as eight
        big-endian bytes at offsets 56..64. When the 0x80 byte leaves more
        than 56 bytes in the buffer the length no longer fits: the buffer is
        zero-filled and compressed first, and the length goes into a second
        block of zeros. */
    method PadLastBlocks()
      requires |state| == 8 && buffer.Length == 64
      requires bufferLen < 64 && totalLen < MaxMessageLength
      modifies this`bufferLen, this`state, buffer
      ensures state == HashBlocks(old(state), FinalBlocks(old(buffer[..bufferLen]), totalLen))
    {
      var bitLen := (totalLen * 8) as bv64;
      ghost var len := totalLen;
      ghost var tail := buffer[..bufferLen];
      ghost var hv := state;

      buffer[bufferLen] := 0x80;
      bufferLen := bufferLen + 1;
      assert buffer[..bufferLen] == tail + [0x80];
      ghost var first: seq<Byte> := [];
      var spilled := bufferLen > 56;
      if spilled {
        first := SpillBlock();
      }
      ghost var head := buffer[..bufferLen];
      ghost var second := LengthBlock(bitLen);
      LastBlocksHash(hv, tail, len, bitLen, first, head, second);
    }

    /** The first block of a two-block ending: the buffer, zero-filled from
        bufferLen to 64, is compressed and emptied. */
    method SpillBlock() returns (ghost block: seq<Byte>)
      requires |state| == 8 && buffer.Length == 64 && 56 < bufferLen <= 64
      modifies this`bufferLen, this`state, buffer
      ensures bufferLen == 0
      ensures block == old(buffer[..bufferLen]) + Zeros(64 - old(bufferLen))
      ensures state == Compress(old(state), block)
    {
      ZeroFill(bufferLen, 64);
      block := buffer[..];
      assert buffer[..] == buffer[..64];
      ProcessBlock(buffer[..]);
      bufferLen := 0;
    }

    /** The last block: the buffer, zero-filled from bufferLen to 56 and
        ending in the eight big-endian bytes of the bit length, is
        compressed. */
    method LengthBlock(bitLen: bv64) returns (ghost block: seq<Byte>)
      requires |state| == 8 && buffer.Length == 64 && bufferLen <= 56
      modifies this`state, buffer
      ensures block == old(buffer[..bufferLen]) + Zeros(56 - bufferLen) + U64ToBytes(bitLen)
      ensures state == Compress(old(state), block)
    {
      ZeroFill(bufferLen, 56);
      CopyIn(56, U64ToBytes(bitLen));
      block := buffer[..];
      assert buffer[..] == buffer[..64];
      ProcessBlock(buffer[..]);
    }

    /** The zero-fill loops of `finalize`: buffer[from..to] := 0, the rest
        of the buffer unchanged. */
    method ZeroFill(from: nat, to: nat)
      requires buffer.Length == 64 && from <= to <= 64
      modifies buffer
      ensures buffer[..to] == old(buffer[..from]) + Zeros(to - from)
      ensures buffer[to..] == old(buffer[to..])
    {
      for i := from to to
        invariant buffer[..from] == old(buffer[..from])
        invariant buffer[to..] == old(buffer[to..])
        invariant forall j :: from <= j < i ==> buffer[j] == 0
      {
        buffer[i] := 0;
      }
      assert buffer[..to] == old(buffer[..from]) + Zeros(to - from);
    }

    /** The closing loop of `finalize`: each state word as four big-endian
        bytes, in order. */
    method Serialize() returns (digest: seq<Byte>)
      requires |state| == 8
      ensures digest == WordsToBytes(state)
    {
      var result := new Byte[32];
      for i := 0 to 8
        invariant result[..4 * i] == WordsToBytes(state[..i])
      {
        var wb := WordToBytes(state[i]);
        result[4 * i] := wb[0];
        result[4 * i + 1] := wb[1];
        result[4 * i + 2] := wb[2];
        result[4 * i + 3] := wb[3];
        assert state[..i + 1][..i] == state[..i];
      }
      assert state[..8] == state;
      digest := result[..];
    }
  }

  /** The blocks `finalize` compresses are the final blocks of the message:
      when the tail and the 0x80 byte leave no room for the length, the
      tail padded with zeros to a whole block and then a block of zeros
      ending in the length; otherwise one block holding the tail, the 0x80
      byte, zeros and the length. */
  lemma LastBlocks(tail: seq<Byte>, len: nat, bitLen: bv64, first: seq<Byte>, head: seq<Byte>, second: seq<Byte>)
    requires |tail| < 64 && len < MaxMessageLength && bitLen == (len * 8) as bv64
    requires |head| <= 56 && second == head + Zeros(56 - |head|) + U64ToBytes(bitLen)
    requires |tail| + 1 > 56 ==> first == tail + [0x80] + Zeros(63 - |tail|) && head == []
    requires |tail| + 1 <= 56 ==> head == tail + [0x80]
    ensures FinalBlocks(tail, len) == if |tail| + 1 > 56 then first + second else second
  {
    assert U64ToBytes(bitLen) == LengthField(len);
  }

  /** Compressing the blocks `finalize` builds is compressing the final
      blocks of the message. */
  lemma LastBlocksHash(hv: seq<Word>, tail: seq<Byte>, len: nat, bitLen: bv64, first: seq<Byte>,
                       head: seq<Byte>, second: seq<Byte>)
    requires |hv| == 8 && |tail| < 64 && len < MaxMessageLength && bitLen == (len * 8) as bv64
    requires |head| <= 56 && second == head + Zeros(56 - |head|) + U64ToBytes(bitLen)
    requires |tail| + 1 > 56 ==> first == tail + [0x80] + Zeros(63 - |tail|) && head == []
    requires |tail| + 1 <= 56 ==> head == tail + [0x80]
    ensures HashBlocks(hv, FinalBlocks(tail, len))
         == if |tail| + 1 > 56 then Compress(Compress(hv, first), second) else Compress(hv, second)
  {
    LastBlocks(tail, len, bitLen, first, head, second);
    if |tail| + 1 > 56 {
      HashTwoBlocks(hv, first, second);
    } else {
      HashOneBlock(hv, second);
    }
  }

  /** Moving the next n bytes of data onto the end of the processed part. */
  lemma Advance<T>(done: seq<T>, data: seq<T>, offset: nat, n: nat)
    requires offset + n <= |data|
    ensures done + data[offset..] == (done + data[offset..offset + n]) + data[offset + n..]
  {
    assert data[offset..] == data[offset..offset + n] + data[offset + n..];
    Assoc(done, data[offset..offset + n], data[offset + n..]);
  }

  /** The buffered bytes and the first k bytes of data form the next block. */
  lemma Regroup<T>(done: seq<T>, held: seq<T>, data: seq<T>, k: nat)
    requires k <= |data|
    ensures done + held + data == (done + (held + data[..k])) + data[k..]
  {
    assert data == data[..k] + data[k..];
    Assoc(held, data[..k], data[k..]);
    Assoc(done, held + data[..k], data[k..]);
    Assoc(done, held, data);
  }

  /** `sha256`: a fresh hasher fed the whole message at once. */
  method Sha256Digest(data: seq<Byte>) returns (digest: seq<Byte>)
    requires |data| < MaxMessageLength
    ensures digest == Hash(data)
  {
    var hasher := new Sha256();
    hasher.Update(data);
    assert hasher.consumed == data;
    digest := hasher.Finalize();
  }

  /** Two hashers fed the same bytes, one in two pieces and one in a
      single piece, end in the same state: same hash value, same buffered
      bytes, same byte count. */
  method SplitUpdateState(a: seq<Byte>, b: seq<Byte>) returns (pieces: Sha256, whole: Sha256)
    requires |a + b| < U64Limit
    ensures pieces.Valid() && whole.Valid() && pieces.consumed == whole.consumed == a + b
    ensures pieces.state == whole.state && pieces.totalLen == whole.totalLen
    ensures pieces.buffer[..pieces.bufferLen] == whole.buffer[..whole.bufferLen]
  {
    pieces := new Sha256();
    pieces.Update(a);
    pieces.Update(b);
    whole := new Sha256();
    whole.Update(a + b);
    assert pieces.consumed == a + b;
    pieces.Buffered();
    whole.Buffered();
  }

  /** Feeding a message to the hasher in two pieces, split anywhere, gives
      the same digest as hashing it in one go. */
  method SplitUpdateAgrees(a: seq<Byte>, b: seq<Byte>) returns (digest: seq<Byte>)
    requires |a + b| < MaxMessageLength
    ensures digest == Hash(a + b)
  {
    var hasher := new Sha256();
    hasher.Update(a);
    hasher.Update(b);
    assert hasher.consumed == a + b;
    digest := hasher.Finalize();
  }
}
