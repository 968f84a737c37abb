/** SHA-256 as a pure function of the message (FIPS 180-4, sections 5.1.1,
    6.2.1 and 6.2.2): the message schedule, the 64 rounds of the compression
    function, the padding, and the hash as the compression function folded
    over the padded message one 64-byte block at a time. The streaming
    engine in Sha256Engine is proved against this. */
module Sha256Spec {
  import opened Words
  import opened Bytes

  /** Messages of 2^61 bytes or more would overflow the 64-bit bit length
      that the padding appends (`total_len * 8` in the source). */
  const MaxMessageLength: nat := 0x2000_0000_0000_0000

  /** The first n words of the message schedule of a block (FIPS 180-4
      section 6.2.2, step 1): the block's own sixteen words, then each word
      from four earlier ones through σ0 and σ1. */
  function ExpandSchedule(block: seq<Byte>, n: nat): (ws: seq<Word>)
    requires |block| == 64 && 16 <= n <= 64
    ensures |ws| == n
  {
    if n == 16 then WordsFromBytes(block)
    else
      var s := ExpandSchedule(block, n - 1);
      s + [WrappingAdd(WrappingAdd(WrappingAdd(SmallSigma1(s[n - 3]), s[n - 8]), SmallSigma0(s[n - 16])), s[n - 17])]
  }

  /** The 64-word message schedule of a block. */
  function Schedule(block: seq<Byte>): (ws: seq<Word>)
    requires |block| == 64
    ensures |ws| == 64
  {
    ExpandSchedule(block, 64)
  }

  /** Word t of the message schedule as FIPS 180-4 states it, one word at a
      time: the reference definition for Schedule. */
  function W(block: seq<Byte>, t: nat): Word
    requires |block| == 64 && t < 64
  {
    if t < 16 then WordsFromBytes(block)[t]
    else
      WrappingAdd(WrappingAdd(WrappingAdd(SmallSigma1(W(block, t - 2)), W(block, t - 7)),
                              SmallSigma0(W(block, t - 15))), W(block, t - 16))
  }

  /** Every word of the expanded schedule is the word the recurrence
      defines. */
  lemma {:induction false} ExpandScheduleIsW(block: seq<Byte>, n: nat, t: nat)
    requires |block| == 64 && 16 <= n <= 64 && t < n
    ensures ExpandSchedule(block, n)[t] == W(block, t)
    decreases n
  {
    if n > 16 {
      var s := ExpandSchedule(block, n - 1);
      if t < n - 1 {
        assert ExpandSchedule(block, n)[t] == s[t];
        ExpandScheduleIsW(block, n - 1, t);
      } else {
        ExpandScheduleIsW(block, n - 1, t - 2);
        ExpandScheduleIsW(block, n - 1, t - 7);
        ExpandScheduleIsW(block, n - 1, t - 15);
        ExpandScheduleIsW(block, n - 1, t - 16);
      }
    }
  }

  lemma ScheduleIsW(block: seq<Byte>, t: nat)
    requires |block| == 64 && t < 64
    ensures Schedule(block)[t] == W(block, t)
  {
    ExpandScheduleIsW(block, 64, t);
  }

  /** The first 16 schedule words hold the block itself: serialising them
      gives the block back. */
  lemma {:induction false} ScheduleHoldsBlock(block: seq<Byte>)
    requires |block| == 64
    ensures WordsToBytes(Schedule(block)[..16]) == block
  {
    ScheduleKeepsPrefix(block, 64);
    BytesWordsRoundTrip(block);
  }

  lemma {:induction false} ScheduleKeepsPrefix(block: seq<Byte>, n: nat)
    requires |block| == 64 && 16 <= n <= 64
    ensures ExpandSchedule(block, n)[..16] == WordsFromBytes(block)
  {
    if n > 16 {
      ScheduleKeepsPrefix(block, n - 1);
      var s := ExpandSchedule(block, n - 1);
      assert ExpandSchedule(block, n)[..16] == s[..16];
    }
  }

  /** The eight working variables a..h. */
  datatype Vars = Vars(a: Word, b: Word, c: Word, d: Word, e: Word, f: Word, g: Word, h: Word)

  function T1(v: Vars, k: Word, w: Word): Word
  {
    WrappingAdd(WrappingAdd(WrappingAdd(WrappingAdd(v.h, BigSigma1(v.e)), Ch(v.e, v.f, v.g)), k), w)
  }

  function T2(v: Vars): Word
  {
    WrappingAdd(BigSigma0(v.a), Maj(v.a, v.b, v.c))
  }

  /** One round: the variables shift down by one place, with T1 + T2 entering
      at a and d + T1 replacing e. */
  function Round(v: Vars, k: Word, w: Word): Vars
  {
    var t1 := T1(v, k, w);
    Vars(WrappingAdd(t1, T2(v)), v.a, v.b, v.c, WrappingAdd(v.d, t1), v.e, v.f, v.g)
  }

  /** The working variables after the first n rounds, given the schedule. */
  function Rounds(v: Vars, ws: seq<Word>, n: nat): Vars
    requires |ws| == 64 && n <= 64
  {
    if n == 0 then v else Round(Rounds(v, ws, n - 1), K[n - 1], ws[n - 1])
  }

  /** Only a and e take new values in a round; the other six variables
      are two four-stage shift registers, so after round n variables b, c,
      d hold what a held one, two and three rounds earlier, and f, g, h
      what e held. */
  lemma RoundsShiftRegister(v: Vars, ws: seq<Word>, n: nat)
    requires |ws| == 64 && 3 <= n <= 64
    ensures var r, p1, p2, p3 := Rounds(v, ws, n), Rounds(v, ws, n - 1), Rounds(v, ws, n - 2), Rounds(v, ws, n - 3);
      && r.b == p1.a && r.c == p2.a && r.d == p3.a
      && r.f == p1.e && r.g == p2.e && r.h == p3.e
  {
  }

  function ToVars(hv: seq<Word>): Vars
    requires |hv| == 8
  {
    Vars(hv[0], hv[1], hv[2], hv[3], hv[4], hv[5], hv[6], hv[7])
  }

  /** The next hash value: each word of the current one plus the working
      variable in the same position, modulo 2^32. */
  function AddVars(hv: seq<Word>, v: Vars): (r: seq<Word>)
    requires |hv| == 8
    ensures |r| == 8
  {
    [WrappingAdd(hv[0], v.a), WrappingAdd(hv[1], v.b), WrappingAdd(hv[2], v.c), WrappingAdd(hv[3], v.d),
     WrappingAdd(hv[4], v.e), WrappingAdd(hv[5], v.f), WrappingAdd(hv[6], v.g), WrappingAdd(hv[7], v.h)]
  }

  /** The compression function (FIPS 180-4 section 6.2.2, steps 2 to 4):
      the hash value after one more block, H(i) = H(i-1) + the working
      variables after 64 rounds. CompressDefinition states it outright. */
  function Compress(hv: seq<Word>, block: seq<Byte>): (r: seq<Word>)
    requires |hv| == 8 && |block| == 64
    ensures |r| == 8
  {
    CompressAfter(hv, block, 2)
  }

  /** Compress reached through `delay` steps that change nothing. The
      verifier unfolds a recursive function only two levels deep on its
      own, so proofs that only pass hash values around never expand the 64
      rounds; CompressDefinition expands them where a proof needs them. */
  function CompressAfter(hv: seq<Word>, block: seq<Byte>, delay: nat): (r: seq<Word>)
    requires |hv| == 8 && |block| == 64
    ensures |r| == 8
  {
    if delay == 0 then AddVars(hv, Rounds(ToVars(hv), Schedule(block), 64))
    else CompressAfter(hv, block, delay - 1)
  }

  lemma {:induction false} CompressAfterAny(hv: seq<Word>, block: seq<Byte>, delay: nat)
    requires |hv| == 8 && |block| == 64
    ensures CompressAfter(hv, block, delay) == AddVars(hv, Rounds(ToVars(hv), Schedule(block), 64))
  {
    if delay > 0 {
      CompressAfterAny(hv, block, delay - 1);
    }
  }

  /** The compression function adds, word by word, the working variables
      left by the 64 rounds into the previous hash value. */
  lemma CompressDefinition(hv: seq<Word>, block: seq<Byte>)
    requires |hv| == 8 && |block| == 64
    ensures Compress(hv, block) == AddVars(hv, Rounds(ToVars(hv), Schedule(block), 64))
  {
    CompressAfterAny(hv, block, 2);
  }

  /** The hash value after compressing each 64-byte block of m in turn. */
  function HashBlocks(hv: seq<Word>, m: seq<Byte>): (r: seq<Word>)
    requires |hv| == 8 && |m| % 64 == 0
    ensures |r| == 8
    decreases |m|
  {
    if m == [] then hv else HashBlocks(Compress(hv, m[..64]), m[64..])
  }

  /** Compressing a ++ b block by block is compressing a, then b from where a
      left off. This is what makes hashing in pieces possible. */
  lemma {:induction false} HashBlocksAppend(hv: seq<Word>, a: seq<Byte>, b: seq<Byte>)
    requires |hv| == 8 && |a| % 64 == 0 && |b| % 64 == 0
    decreases |a|
    ensures HashBlocks(hv, a + b) == HashBlocks(HashBlocks(hv, a), b)
  {
    if a == [] {
      assert a + b == b;
    } else {
      assert (a + b)[..64] == a[..64];
      assert (a + b)[64..] == a[64..] + b;
      HashBlocksAppend(Compress(hv, a[..64]), a[64..], b);
    }
  }

  lemma HashOneBlock(hv: seq<Word>, block: seq<Byte>)
    requires |hv| == 8 && |block| == 64
    ensures HashBlocks(hv, block) == Compress(hv, block)
  {
    assert block[..64] == block;
    assert block[64..] == [];
  }

  lemma NextBlockAligned(n: nat)
    requires n % 64 == 0
    ensures (n + 64) % 64 == 0
  {
  }

  /** Compressing one more block extends the hash value of a message by
      that block. */
  lemma HashBlocksExtend(hv: seq<Word>, m: seq<Byte>, block: seq<Byte>)
    requires |hv| == 8 && |m| % 64 == 0 && |block| == 64
    ensures HashBlocks(hv, m + block) == Compress(HashBlocks(hv, m), block)
  {
    HashBlocksAppend(hv, m, block);
    HashOneBlock(HashBlocks(hv, m), block);
  }

  function Zeros(n: nat): (r: seq<Byte>)
    ensures |r| == n && forall i :: 0 <= i < n ==> r[i] == 0
  {
    seq(n, _ => 0)
  }

  /** The number of zero bytes between the 0x80 byte and the length field:
      the least k >= 0 with len + 1 + k = 56 (mod 64). */
  function PadZeros(len: nat): (k: nat)
    ensures k < 64 && (len + 1 + k) % 64 == 56
  {
    (55 - len) % 64
  }

  lemma LengthFieldCompletesBlock(n: nat)
    requires n % 64 == 56
    ensures (n + 8) % 64 == 0
  {
  }

  /** The message length in bits, as the eight big-endian bytes that end the
      padded message. */
  function LengthField(len: nat): (r: seq<Byte>)
    requires len < MaxMessageLength
    ensures |r| == 8
  {
    U64ToBytes((len * 8) as bv64)
  }

  /** What FIPS 180-4 section 5.1.1 appends to a message of len bytes: a
      0x80 byte, the least number of zero bytes that brings the length to
      56 mod 64, and the bit length as a 64-bit big-endian integer. */
  function Padding(len: nat): (r: seq<Byte>)
    requires len < MaxMessageLength
    ensures 9 <= |r| < 73 && (len + |r|) % 64 == 0
  {
    LengthFieldCompletesBlock(len + 1 + PadZeros(len));
    [0x80] + Zeros(PadZeros(len)) + LengthField(len)
  }

  /** The padding is the 0x80 byte, zeros, and the bit length of the
      message in its last eight bytes, big-endian. */
  lemma PaddingShape(len: nat)
    requires len < MaxMessageLength
    ensures var r := Padding(len);
      && r[0] == 0x80 && (forall i :: 0 < i < |r| - 8 ==> r[i] == 0)
      && U64FromBytes(r[|r| - 8..]) == (len * 8) as bv64
  {
    var r := Padding(len);
    assert r[|r| - 8..] == LengthField(len);
    U64ToBytesRoundTrip((len * 8) as bv64);
  }

  /** The padded message: a whole number of blocks that starts with the
      message. */
  function Pad(msg: seq<Byte>): (p: seq<Byte>)
    requires |msg| < MaxMessageLength
    ensures |p| % 64 == 0 && |p| > |msg| && p[..|msg|] == msg
  {
    msg + Padding(|msg|)
  }

  /** SHA-256 of a message: the 32-byte serialisation of H(0) compressed
      over every block of the padded message. */
  function Hash(msg: seq<Byte>): (d: seq<Byte>)
    requires |msg| < MaxMessageLength
    ensures |d| == 32
  {
    WordsToBytes(HashBlocks(InitialHash, Pad(msg)))
  }

  /** The last one or two blocks of the padded message, built from the tail
      of the message that does not fill a whole block. When the tail and the
      0x80 byte leave no room for the eight length bytes (tail of 56 bytes
      or more) the padding spills into a second block. */
  function FinalBlocks(tail: seq<Byte>, len: nat): (r: seq<Byte>)
    requires |tail| < 64 && len < MaxMessageLength
    ensures |r| == if |tail| < 56 then 64 else 128
    ensures |r| % 64 == 0
  {
    if |tail| + 1 > 56 then
      (tail + [0x80] + Zeros(63 - |tail|)) + (Zeros(56) + LengthField(len))
    else
      tail + [0x80] + Zeros(55 - |tail|) + LengthField(len)
  }

  /** The number of padding zeros depends only on how far the message
      reaches into its last block. */
  lemma PadZerosOfTail(len: nat)
    ensures PadZeros(len) == if len % 64 < 56 then 55 - len % 64 else 119 - len % 64
  {
  }

  lemma Assoc<T>(a: seq<T>, b: seq<T>, c: seq<T>)
    ensures (a + b) + c == a + (b + c)
  {
  }

  lemma ZerosSplit(m: nat, n: nat)
    ensures Zeros(m + n) == Zeros(m) + Zeros(n)
  {
  }

  /** The final blocks are the tail followed by the padding of the whole
      message, in both the one-block and the two-block case. */
  lemma FinalBlocksArePadding(tail: seq<Byte>, len: nat)
    requires |tail| == len % 64 && len < MaxMessageLength
    ensures FinalBlocks(tail, len) == tail + Padding(len)
  {
    var t := |tail|;
    var lf := LengthField(len);
    PadZerosOfTail(len);
    if t + 1 > 56 {
      ZerosSplit(63 - t, 56);
      var z1, z2 := Zeros(63 - t), Zeros(56);
      // tail + ([0x80] + (z1 + z2) + lf)  ==  (tail + [0x80] + z1) + (z2 + lf)
      Assoc([0x80], z1 + z2, lf);
      Assoc(z1, z2, lf);
      Assoc([0x80], z1, z2 + lf);
      Assoc(tail, [0x80] + z1, z2 + lf);
      Assoc(tail, [0x80], z1);
    } else {
      var z := Zeros(55 - t);
      Assoc(tail + [0x80], z, lf);
      Assoc(tail, [0x80], z + lf);
      Assoc([0x80], z, lf);
    }
  }

  lemma TailLength(whole: nat, t: nat)
    requires whole % 64 == 0 && t < 64
    ensures (whole + t) % 64 == t
  {
  }

  /** A message split into whole blocks and a tail shorter than a block pads
      to the whole blocks followed by the final blocks built from the tail. */
  lemma PadSplit(whole: seq<Byte>, tail: seq<Byte>)
    requires |whole| % 64 == 0 && |tail| < 64 && |whole| + |tail| < MaxMessageLength
    ensures Pad(whole + tail) == whole + FinalBlocks(tail, |whole + tail|)
  {
    var msg := whole + tail;
    var len := |msg|;
    var padding := Padding(len);
    assert tail + padding == FinalBlocks(tail, len) by {
      TailLength(|whole|, |tail|);
      FinalBlocksArePadding(tail, len);
    }
    calc {
      Pad(msg);
      msg + padding;
      { Assoc(whole, tail, padding); }
      whole + (tail + padding);
      whole + FinalBlocks(tail, len);
    }
  }

  /** SHA-256 computed from the hash value of the whole blocks of the
      message and the final blocks built from its tail: what a streaming
      hasher does. */
  lemma HashFromTail(whole: seq<Byte>, tail: seq<Byte>)
    requires |whole| % 64 == 0 && |tail| < 64 && |whole| + |tail| < MaxMessageLength
    ensures Hash(whole + tail)
         == WordsToBytes(HashBlocks(HashBlocks(InitialHash, whole), FinalBlocks(tail, |whole + tail|)))
  {
    var last := FinalBlocks(tail, |whole + tail|);
    assert Pad(whole + tail) == whole + last by { PadSplit(whole, tail); }
    HashBlocksAppend(InitialHash, whole, last);
  }

  /** Compressing two blocks in a row. */
  lemma HashTwoBlocks(hv: seq<Word>, b1: seq<Byte>, b2: seq<Byte>)
    requires |hv| == 8 && |b1| == 64 && |b2| == 64
    ensures HashBlocks(hv, b1 + b2) == Compress(Compress(hv, b1), b2)
  {
    HashBlocksAppend(hv, b1, b2);
    HashOneBlock(hv, b1);
    HashOneBlock(Compress(hv, b1), b2);
  }

  /** The whole blocks at the front of a message: what a streaming hasher
      has compressed once it has seen the message. */
  function WholeBlocks(m: seq<Byte>): (r: seq<Byte>)
    ensures |r| % 64 == 0 && |m| - |r| < 64
  {
    m[..|m| - |m| % 64]
  }

  /** The bytes after the whole blocks: what a streaming hasher holds in its
      buffer. */
  function Tail(m: seq<Byte>): (r: seq<Byte>)
    ensures |r| == |m| % 64 && WholeBlocks(m) + r == m
  {
    m[|m| - |m| % 64..]
  }

  /** Whole blocks followed by fewer than 64 bytes split only one way: the
      blocks are the message's whole blocks and the bytes are its tail. */
  lemma {:induction false} BlockSplitUnique(blocks: seq<Byte>, tail: seq<Byte>)
    requires |blocks| % 64 == 0 && |tail| < 64
    ensures WholeBlocks(blocks + tail) == blocks && Tail(blocks + tail) == tail
  {
    var m := blocks + tail;
    assert |m| % 64 == |tail| by { TailLength(|blocks|, |tail|); }
    assert m[..|blocks|] == blocks;
    assert m[|blocks|..] == tail;
  }
}
