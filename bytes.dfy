/** Big-endian conversions between bytes and words, the serialisation of the
    final hash value, and the lowercase hex rendering of a digest. */
module Bytes {
  import opened Words

  /** `u32::from_be_bytes([b0, b1, b2, b3])`: b0 is the most significant byte. */
  function WordFromBytes(b0: Byte, b1: Byte, b2: Byte, b3: Byte): Word
  {
    ((b0 as Word) << 24) | ((b1 as Word) << 16) | ((b2 as Word) << 8) | (b3 as Word)
  }

  /** `u32::to_be_bytes`: the inverse of WordFromBytes. */
  function WordToBytes(w: Word): (r: seq<Byte>)
    ensures |r| == 4
  {
    [(w >> 24) as Byte, ((w >> 16) & 0xFF) as Byte, ((w >> 8) & 0xFF) as Byte, (w & 0xFF) as Byte]
  }

  /** Reading back the four bytes of a word gives the word. */
  lemma WordToBytesRoundTrip(w: Word)
    ensures var r := WordToBytes(w); WordFromBytes(r[0], r[1], r[2], r[3]) == w
  {
  }

  /** Writing out a word read from four bytes gives the bytes. */
  lemma WordBytesRoundTrip(b0: Byte, b1: Byte, b2: Byte, b3: Byte)
    ensures WordToBytes(WordFromBytes(b0, b1, b2, b3)) == [b0, b1, b2, b3]
  {
  }

  /** Reads eight bytes as a big-endian 64-bit integer. */
  function U64FromBytes(b: seq<Byte>): bv64
    requires |b| == 8
  {
    ((b[0] as bv64) << 56) | ((b[1] as bv64) << 48) | ((b[2] as bv64) << 40) | ((b[3] as bv64) << 32)
    | ((b[4] as bv64) << 24) | ((b[5] as bv64) << 16) | ((b[6] as bv64) << 8) | (b[7] as bv64)
  }

  /** `u64::to_be_bytes`: the inverse of U64FromBytes. */
  function U64ToBytes(x: bv64): (r: seq<Byte>)
    ensures |r| == 8
  {
    [(x >> 56) as Byte, ((x >> 48) & 0xFF) as Byte, ((x >> 40) & 0xFF) as Byte, ((x >> 32) & 0xFF) as Byte,
     ((x >> 24) & 0xFF) as Byte, ((x >> 16) & 0xFF) as Byte, ((x >> 8) & 0xFF) as Byte, (x & 0xFF) as Byte]
  }

  /** Reading back the eight bytes of a 64-bit integer gives the integer. */
  lemma U64ToBytesRoundTrip(x: bv64)
    ensures U64FromBytes(U64ToBytes(x)) == x
  {
  }

  /** Writing out an integer read from eight bytes gives the bytes. */
  lemma U64BytesRoundTrip(b: seq<Byte>)
    requires |b| == 8
    ensures U64ToBytes(U64FromBytes(b)) == b
  {
  }

  /** The words serialised one after another, each big-endian; for the
      eight words of the final hash value this is the 32-byte digest. */
  function WordsToBytes(ws: seq<Word>): (r: seq<Byte>)
    ensures |r| == 4 * |ws|
  {
    if ws == [] then [] else WordsToBytes(ws[..|ws| - 1]) + WordToBytes(ws[|ws| - 1])
  }

  /** Byte i of the serialisation is byte i % 4 of word i / 4. */
  lemma {:induction false} WordsToBytesAt(ws: seq<Word>, i: nat)
    requires i < 4 * |ws|
    ensures WordsToBytes(ws)[i] == WordToBytes(ws[i / 4])[i % 4]
  {
    var n := |ws| - 1;
    if i < 4 * n {
      WordsToBytesAt(ws[..n], i);
      assert ws[..n][i / 4] == ws[i / 4];
    } else {
      assert i / 4 == n && i % 4 == i - 4 * n;
    }
  }

  /** Reads a byte string whose length is a multiple of four as big-endian
      words: the first 16 words of the message schedule of a block. */
  function WordsFromBytes(b: seq<Byte>): (ws: seq<Word>)
    requires |b| % 4 == 0
    ensures |ws| == |b| / 4
  {
    if b == [] then []
    else
      var n := |b| - 4;
      WordsFromBytes(b[..n]) + [WordFromBytes(b[n], b[n + 1], b[n + 2], b[n + 3])]
  }

  /** Serialising the words and reading them back gives the same words: the
      digest determines the final hash value. */
  lemma {:induction false} WordsBytesRoundTrip(ws: seq<Word>)
    ensures WordsFromBytes(WordsToBytes(ws)) == ws
  {
    if ws != [] {
      var n := |ws| - 1;
      var b := WordsToBytes(ws);
      WordToBytesRoundTrip(ws[n]);
      assert b[..4 * n] == WordsToBytes(ws[..n]);
      WordsBytesRoundTrip(ws[..n]);
      assert ws == ws[..n] + [ws[n]];
    }
  }

  /** Reading the bytes as words and serialising them gives the bytes back:
      no byte of a block is lost when it is loaded into the schedule. */
  lemma {:induction false} BytesWordsRoundTrip(b: seq<Byte>)
    requires |b| % 4 == 0
    ensures WordsToBytes(WordsFromBytes(b)) == b
  {
    if b != [] {
      var n := |b| - 4;
      var ws, rest := WordsFromBytes(b), WordsFromBytes(b[..n]);
      var last := WordFromBytes(b[n], b[n + 1], b[n + 2], b[n + 3]);
      assert ws == rest + [last];
      assert ws[..|ws| - 1] == rest;
      assert WordToBytes(last) == b[n..] by {
        WordBytesRoundTrip(b[n], b[n + 1], b[n + 2], b[n + 3]);
      }
      calc {
        WordsToBytes(ws);
        WordsToBytes(rest) + WordToBytes(last);
        { BytesWordsRoundTrip(b[..n]); }
        b[..n] + b[n..];
      }
      assert b == b[..n] + b[n..];
    }
  }

  /** The digit of `{:02x}` for a nibble. */
  function HexDigit(n: Byte): (c: char)
    requires n < 16
    ensures c in "0123456789abcdef"
  {
    "0123456789abcdef"[n as nat]
  }

  /** The nibble a lowercase hex digit stands for; 0 for any other character. */
  function HexNibble(c: char): Byte
  {
    if '0' <= c <= '9' then (c as int - '0' as int) as Byte
    else if 'a' <= c <= 'f' then (c as int - 'a' as int + 10) as Byte
    else 0
  }

  lemma HexDigitNibble(n: Byte)
    requires n < 16
    ensures HexNibble(HexDigit(n)) == n
  {
  }

  /** `to_hex`: every byte as two lowercase hex digits, high nibble first. */
  function ToHex(bytes: seq<Byte>): (s: string)
    ensures |s| == 2 * |bytes|
    ensures forall i :: 0 <= i < |s| ==> s[i] in "0123456789abcdef"
  {
    if bytes == [] then ""
    else [HexDigit(bytes[0] >> 4), HexDigit(bytes[0] & 0xF)] + ToHex(bytes[1..])
  }

  /** Parses a string of hex digit pairs, high nibble first; the reference
      against which ToHex is checked. */
  function FromHex(s: string): (bytes: seq<Byte>)
    requires |s| % 2 == 0
    ensures |bytes| == |s| / 2
  {
    if s == [] then []
    else [(HexNibble(s[0]) << 4) | HexNibble(s[1])] + FromHex(s[2..])
  }

  /** Reading the hex string back gives the original bytes, so ToHex puts
      every byte in, in order, high nibble first. */
  lemma {:induction false} HexRoundTrip(bytes: seq<Byte>)
    ensures FromHex(ToHex(bytes)) == bytes
  {
    if bytes != [] {
      var b := bytes[0];
      HexDigitNibble(b >> 4);
      HexDigitNibble(b & 0xF);
      assert ((b >> 4) << 4) | (b & 0xF) == b;
      assert ToHex(bytes)[2..] == ToHex(bytes[1..]);
      HexRoundTrip(bytes[1..]);
    }
  }
}
