# Streaming SHA-256, modelled and proved in Dafny

This project models the from-scratch SHA-256 engine of a BIP-39 mnemonic
generator (`src/sha256.rs`). The engine implements FIPS 180-4: the word
operations ROTR, Ch, Maj, Σ0, Σ1, σ0 and σ1, the constants K and H(0), the
message schedule, the 64-round compression function, the padding of
section 5.1.1, and a streaming hasher. The hasher's `update` can be called
any number of times, and `finalize` pads the message and produces the
32-byte digest.

The project has four modules:

- `Words` (`words.dfy`): 32-bit words as `bv32`, so `wrapping_add` is
  plain `bv32` addition. It also holds the rotation, the six logical
  functions and the constants, transcribed from the source.
- `Bytes` (`bytes.dfy`): big-endian conversions between bytes, words and
  64-bit integers, the digest serialisation, and `to_hex`.
- `Sha256Spec` (`spec.dfy`): SHA-256 as a pure function of the message.
  `Hash(msg)` serialises H(0) compressed over every 64-byte block of
  `Pad(msg)`. `Compress` is defined by the schedule and the rounds. The
  module also has the lemmas that relate the padding of a whole message to
  the last one or two blocks a streaming hasher builds from its tail.
- `Sha256Engine` (`engine.dfy`): the `Sha256` struct as a class with the
  source's four fields. `state` is a `seq<Word>`, updated word by word,
  because the source holds a `[u32; 8]` value. `buffer` is a 64-byte
  array, and `bufferLen` and `totalLen` are naturals. Two ghost fields
  record every byte consumed and the prefix already compressed.
  `Valid()` is the buffering invariant: `Update` is proved to keep it,
  which ties the state to `Sha256Spec.HashBlocks` over the consumed bytes,
  and `Finalize` is proved to return `Sha256Spec.Hash` of them.

The loops of `create_message_schedule`, `process_block`, `update` and
`finalize` are `for`/`while` loops over the same variables, with the
invariants that tie them to the pure definitions.

In the code, `finalize` takes the hasher by value and consumes it. In the
model, `Finalize` leaves the object without its invariant, so it cannot be
updated again.

## Model

| member | source | states |
|---|---|---|
| Words.Rotr | src/sha256.rs:31-36 | for 0 < n < 32, `(x >> n) \| (x << (32 - n))` is the rotation of x right by n places |
| Words.ChChooses | src/sha256.rs:38-44 | Ch has y's bit wherever x has a 1 and z's bit wherever x has a 0, and the two XORed terms share no bit |
| Words.MajIsMajority | src/sha256.rs:46-51 | where x and y agree, Maj equals them; where they differ, Maj takes z's bit, so each bit is the majority |
| Words.BigSigma0 | src/sha256.rs:53-58 | Σ0(x) = ROTR^2(x) ⊕ ROTR^13(x) ⊕ ROTR^22(x), each term a rotation by the contract of Words.Rotr |
| Words.BigSigma1 | src/sha256.rs:60-65 | Σ1(x) = ROTR^6(x) ⊕ ROTR^11(x) ⊕ ROTR^25(x), each term a rotation by the contract of Words.Rotr |
| Words.SmallSigma0 | src/sha256.rs:67-74 | σ0(x) = ROTR^7(x) ⊕ ROTR^18(x) ⊕ SHR^3(x); the third term is a plain shift |
| Words.SmallSigma1 | src/sha256.rs:76-81 | σ1(x) = ROTR^17(x) ⊕ ROTR^19(x) ⊕ SHR^10(x); the third term is a plain shift |
| Words.InitialHash | src/sha256.rs:1-10 | the eight words of H(0), transcribed in order |
| Words.K | src/sha256.rs:12-29 | the 64 round constants, transcribed in order |
| Bytes.WordBytesRoundTrip | src/sha256.rs:102-109 | writing out the word that `from_be_bytes` reads from four bytes gives back those four bytes, first byte most significant |
| Bytes.WordToBytesRoundTrip | src/sha256.rs:221-224 | reading back the four big-endian bytes of a word gives the word |
| Bytes.U64ToBytesRoundTrip | src/sha256.rs:217 | the eight big-endian bytes of the bit length read back to the bit length |
| Bytes.U64BytesRoundTrip | src/sha256.rs:217 | every eight bytes are the big-endian encoding of exactly one 64-bit value |
| Bytes.WordsToBytesAt | src/sha256.rs:221-224 | byte i of the serialised words is byte i mod 4 of word i / 4 |
| Bytes.WordsBytesRoundTrip | src/sha256.rs:221-224 | serialised words read back to the same words, so the digest determines the final state |
| Bytes.BytesWordsRoundTrip | src/sha256.rs:102-109 | bytes read as big-endian words serialise back to the same bytes |
| Bytes.HexDigitNibble | src/sha256.rs:236-238 | each lowercase hex digit parses back to its nibble |
| Bytes.ToHex | src/sha256.rs:236-238 | the output has exactly two characters per byte, all from `0123456789abcdef` |
| Bytes.HexRoundTrip | src/sha256.rs:236-238 | parsing the hex string in pairs, high nibble first, gives back the original bytes |
| Sha256Spec.ExpandScheduleIsW | src/sha256.rs:100-120 | every word of the expanded schedule equals the FIPS recurrence: big-endian block words below 16, then σ1(w[t-2]) + w[t-7] + σ0(w[t-15]) + w[t-16] mod 2^32 |
| Sha256Spec.ScheduleIsW | src/sha256.rs:100-120 | each of the 64 schedule words is word t of the recurrence |
| Sha256Spec.ScheduleKeepsPrefix | src/sha256.rs:102-109 | expanding the schedule never changes its first 16 words, the block's own words |
| Sha256Spec.ScheduleHoldsBlock | src/sha256.rs:102-109 | the first 16 schedule words serialise back to the block, so no byte of the block is lost |
| Sha256Spec.Round | src/sha256.rs:135-150 | one iteration of the round loop: T1 and T2 from h, Σ1(e), Ch(e, f, g), K[i], w[i], Σ0(a) and Maj(a, b, c); T1 + T2 enters at a, d + T1 at e, the rest shift down one place |
| Sha256Spec.Rounds | src/sha256.rs:134-151 | the working variables after the first n iterations of the round loop |
| Sha256Spec.RoundsShiftRegister | src/sha256.rs:143-150 | after round n, b, c and d hold the values a had after rounds n-1, n-2 and n-3, and f, g and h those of e: only a and e receive new values |
| Sha256Spec.Compress | src/sha256.rs:122-161 | the reference compression function of FIPS 180-4 section 6.2.2: eight words, H(i-1) plus, word by word mod 2^32, the working variables after 64 Rounds over the block's schedule (CompressDefinition unfolds it to that form) |
| Sha256Spec.HashBlocksAppend | src/sha256.rs:185-188 | compressing over two block-aligned pieces in turn is compressing over their concatenation |
| Sha256Spec.HashOneBlock | src/sha256.rs:122-161 | folding the compression over a single block is one compression |
| Sha256Spec.HashBlocksExtend | src/sha256.rs:185-188 | compressing one more block after a block-aligned prefix extends the fold over the prefix |
| Sha256Spec.HashTwoBlocks | src/sha256.rs:205-219 | folding over two blocks is two compressions in order |
| Sha256Spec.PadZeros | src/sha256.rs:213-215 | the number of zero bytes is below 64 and brings the length plus the 0x80 byte to 56 mod 64 |
| Sha256Spec.Padding | src/sha256.rs:199-219 | the padding is 9 to 72 bytes long and completes the message to a whole number of blocks |
| Sha256Spec.PaddingShape | src/sha256.rs:199-219 | the padding starts with 0x80, then only zeros, and its last eight bytes read big-endian as the message length in bits |
| Sha256Spec.Pad | src/sha256.rs:199-219 | the padded message is a whole number of blocks, longer than the message, and starts with it |
| Sha256Spec.Hash | src/sha256.rs:221-227 | the digest is 32 bytes |
| Sha256Spec.FinalBlocks | src/sha256.rs:205-219 | one block when the tail is under 56 bytes, two blocks otherwise |
| Sha256Spec.FinalBlocksArePadding | src/sha256.rs:205-219 | in both the one-block and the two-block case, the blocks built from the tail are the tail followed by the padding of the whole message |
| Sha256Spec.PadSplit | src/sha256.rs:199-219 | a message of whole blocks and a shorter tail pads to the whole blocks followed by the final blocks of the tail |
| Sha256Spec.HashFromTail | src/sha256.rs:199-227 | the digest of such a message is the final blocks compressed after the whole blocks, then serialised |
| Sha256Spec.WholeBlocks | src/sha256.rs:185-188 | the whole-block prefix of a message is block-aligned and leaves fewer than 64 bytes |
| Sha256Spec.Tail | src/sha256.rs:190-194 | the tail has length len mod 64 and follows the whole blocks to make up the message |
| Sha256Spec.BlockSplitUnique | src/sha256.rs:165-195 | whole blocks followed by fewer than 64 bytes split only one way, into the message's whole blocks and its tail |
| Sha256Engine.Sha256.Buffered | src/sha256.rs:165-195 | in a valid hasher, `state` is H(0) compressed over the whole blocks of the consumed bytes, `buffer[..buffer_len]` is their tail, and `buffer_len` is `total_len` mod 64 |
| Sha256Engine.Sha256.constructor | src/sha256.rs:91-98 | a new hasher is valid, holds H(0), has an empty buffer and has consumed nothing |
| Sha256Engine.Sha256.CreateMessageSchedule | src/sha256.rs:100-120 | the array filled by the two loops is the 64-word schedule of the block |
| Sha256Engine.Sha256.LoadWords | src/sha256.rs:102-109 | the first loop leaves the block's 16 big-endian words at the start of w |
| Sha256Engine.Sha256.ProcessBlock | src/sha256.rs:122-161 | `state` becomes `Compress(old(state), block)`, which CompressDefinition unfolds to the old words plus the working variables after 64 Rounds over the schedule; its modifies clause names only the state field, so no other field changes |
| Sha256Engine.Sha256.RunRounds | src/sha256.rs:134-151 | the loop's a..h after 64 iterations are the 64 rounds of the T1/T2 update |
| Sha256Engine.Sha256.AddWorkingVars | src/sha256.rs:153-160 | each state word j becomes state[j] + v_j mod 2^32 |
| Sha256Engine.Sha256.Update | src/sha256.rs:165-195 | the hasher stays valid (so `buffer_len < 64`), the data is appended to the consumed bytes, and `total_len` grows by exactly the data length |
| Sha256Engine.Sha256.TopUp | src/sha256.rs:170-176 | the buffered bytes and the first bytes of data form a block, which is compressed; the buffer empties and the rest of the data is still to be consumed |
| Sha256Engine.Sha256.Append | src/sha256.rs:177-182 | data too short to complete a block is appended to the buffer, and `buffer_len` grows by its length |
| Sha256Engine.Sha256.CopyIn | src/sha256.rs:173 | `copy_from_slice` puts src at position `at` and leaves the rest of the buffer unchanged |
| Sha256Engine.Sha256.Finalize | src/sha256.rs:199-227 | the digest is the SHA-256 of every byte consumed |
| Sha256Engine.Sha256.PadLastBlocks | src/sha256.rs:200-219 | the state after padding is the old state compressed over the final blocks built from the buffered tail and `total_len` |
| Sha256Engine.Sha256.SpillBlock | src/sha256.rs:205-211 | when the 0x80 byte leaves more than 56 bytes, the buffer zero-filled to 64 is compressed and `buffer_len` becomes 0 |
| Sha256Engine.Sha256.LengthBlock | src/sha256.rs:213-219 | the buffer zero-filled to 56, followed by the eight big-endian bytes of the bit length, is compressed |
| Sha256Engine.Sha256.ZeroFill | src/sha256.rs:213-215 | `buffer[from..to]` becomes zeros and the rest of the buffer is unchanged |
| Sha256Engine.Sha256.Serialize | src/sha256.rs:221-224 | the result is the eight state words, each as four big-endian bytes, in order |
| Sha256Engine.LastBlocks | src/sha256.rs:205-219 | the one or two blocks `finalize` builds in the buffer are the final blocks of the message |
| Sha256Engine.LastBlocksHash | src/sha256.rs:205-219 | compressing the blocks `finalize` builds is compressing the final blocks of the message |
| Sha256Engine.Sha256Digest | src/sha256.rs:230-234 | `new`, then `update(data)`, then `finalize` gives the SHA-256 of data |
| Sha256Engine.SplitUpdateState | src/sha256.rs:165-195 | `update(a); update(b)` and `update(a ++ b)` reach the same state, buffered tail and byte count, for any split point |
| Sha256Engine.SplitUpdateAgrees | src/sha256.rs:165-227 | `update(a); update(b); finalize()` gives the SHA-256 of a ++ b |

## Left out

- `src/entropy.rs` is not part of this model. It wraps the operating system's random number generator, which is foreign I/O. Its size check and hex formatter have no role in the hash.
- `src/main.rs` only prints. The checksum, 11-bit chunking and word-list functions it calls are not defined in this crate: `src/lib.rs` declares only the `entropy` and `sha256` modules, and neither module defines them, so they are not modelled.
- `src/lib.rs` only re-exports modules.
- Concrete test vectors, such as the digests of "" and "abc", are not proved. Unfolding the 64 rounds of a concrete block is beyond what the verifier does in reasonable time. Every digest is proved against the pure definition instead.
- The values of K and H(0) are transcribed from the source, not derived from the cube and square roots of primes.
- Sha256Engine.Sha256.Update: requires `total_len + |data| < 2^64`. The overflow of the `u64` byte counter, which panics in a debug build and wraps in a release build, is not modelled.
- Sha256Engine.Sha256.Finalize: requires `total_len < 2^61`. The overflow of `total_len * 8`, which panics in a debug build and wraps in a release build, is not modelled. The consumed hasher is left without its invariant rather than made unusable by the type system.
- Words.Rotr: requires `0 < n < 32`. A shift by 32 or more, which happens for n = 0 or n >= 32, panics in a debug build and has its amount masked in a release build. Every call site uses n between 2 and 25.
- The `buffer.clone()` passed to `process_block` is modelled as a snapshot of the buffer's contents (`buffer[..]`).
- `Sha256Spec.Compress` reaches its definition through a small `delay` count (`CompressAfter`). This keeps the 64 rounds out of proofs that only fold compressions. It has no counterpart in the source.
