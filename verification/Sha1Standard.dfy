/** The Secure Hash Algorithm as sections 3 to 7 of FIPS PUB 180-1 describe it, on whole
    messages of bytes.  Nothing here knows about contexts, buffers or chunks. */
module Sha1Standard {

  type Byte = bv8
  type Word = bv32

  const TWO_32: nat := 0x1_0000_0000
  const TWO_64: nat := 0x1_0000_0000_0000_0000

  /** The five chaining words H0..H4, also used for the five round registers A..E. */
  datatype Quintet = Quintet(a: Word, b: Word, c: Word, d: Word, e: Word)

  const INITIAL: Quintet := Quintet(0x67452301, 0xefcdab89, 0x98badcfe, 0x10325476, 0xc3d2e1f0)

  /** The circular left shifts S^1, S^5 and S^30 of section 3. */
  function S1(x: Word): Word {
    (x << 1) | (x >> 31)
  }

  function S5(x: Word): Word {
    (x << 5) | (x >> 27)
  }

  function S30(x: Word): Word {
    (x << 30) | (x >> 2)
  }

  /** The logical functions of section 5, written with AND, OR, XOR and NOT as the standard does. */
  function F(t: nat, b: Word, c: Word, d: Word): Word
    requires t < 80
  {
    if t < 20 then (b & c) | (!b & d)
    else if t < 40 then b ^ c ^ d
    else if t < 60 then (b & c) | (b & d) | (c & d)
    else b ^ c ^ d
  }

  /** The constants of section 6. */
  function K(t: nat): Word
    requires t < 80
  {
    if t < 20 then 0x5a827999
    else if t < 40 then 0x6ed9eba1
    else if t < 60 then 0x8f1bbcdc
    else 0xca62c1d6
  }

  function Zeros(k: nat): seq<Byte> {
    seq(k, _ => 0 as Byte)
  }

  /** A number below 2^64 as eight bytes, most significant first. */
  function BigEndian64(n: nat): (r: seq<Byte>)
    requires n < TWO_64
  {
    [ ((n / 0x100_0000_0000_0000) % 256) as Byte, ((n / 0x1_0000_0000_0000) % 256) as Byte,
      ((n / 0x100_0000_0000) % 256) as Byte, ((n / 0x1_0000_0000) % 256) as Byte,
      ((n / 0x100_0000) % 256) as Byte, ((n / 0x1_0000) % 256) as Byte,
      ((n / 0x100) % 256) as Byte, (n % 256) as Byte ]
  }

  /** The fewest zero bytes that leave room for the length in the last block. */
  function ZeroCount(length: nat): (k: nat)
    ensures k < 64 && (length + 1 + k + 8) % 64 == 0
  {
    if length % 64 <= 55 then 55 - length % 64 else 119 - length % 64
  }

  /** Section 4: a one bit, the fewest zero bits that leave room for the length, the length. */
  function Padding(length: nat, bits: nat): (r: seq<Byte>)
    requires bits < TWO_64
    ensures (length + |r|) % 64 == 0
  {
    [0x80 as Byte] + Zeros(ZeroCount(length)) + BigEndian64(bits)
  }

  /** Four bytes as a word, most significant first. */
  function WordOf(b0: Byte, b1: Byte, b2: Byte, b3: Byte): Word {
    ((b0 as Word) << 24) | ((b1 as Word) << 16) | ((b2 as Word) << 8) | (b3 as Word)
  }

  function WordsOf(block: seq<Byte>): (r: seq<Word>)
    requires |block| == 64
    ensures |r| == 16
  {
    seq(16, i requires 0 <= i < 16 =>
      WordOf(block[4 * i], block[4 * i + 1], block[4 * i + 2], block[4 * i + 3]))
  }

  function Mix(w: Word, x: Word, y: Word, z: Word): Word {
    S1(w ^ x ^ y ^ z)
  }

  /** Step b of section 7: the word W(t) of the message schedule. */
  function Schedule(words: seq<Word>, t: nat): Word
    requires |words| == 16
  {
    if t < 16 then words[t]
    else Mix(Schedule(words, t - 3), Schedule(words, t - 8), Schedule(words, t - 14), Schedule(words, t - 16))
  }

  /** TEMP of step d. */
  function Temp(a: Word, f: Word, e: Word, w: Word, k: Word): Word {
    S5(a) + f + e + w + k
  }

  function Turn(r: Quintet, f: Word, w: Word, k: Word): Quintet {
    Quintet(Temp(r.a, f, r.e, w, k), r.a, S30(r.b), r.c, r.d)
  }

  /** Step d of section 7 for one t. */
  function Round(r: Quintet, t: nat, w: Word): Quintet
    requires t < 80
  {
    Turn(r, F(t, r.b, r.c, r.d), w, K(t))
  }

  /** The number of rounds, one for each t of step d of section 7. */
  const ROUNDS: nat := 80

  /** The words W(0) to W(79). */
  function FullSchedule(words: seq<Word>): (w: seq<Word>)
    requires |words| == 16
    ensures |w| == ROUNDS && forall t :: 0 <= t < ROUNDS ==> w[t] == Schedule(words, t)
  {
    seq(ROUNDS, t requires 0 <= t < ROUNDS => Schedule(words, t))
  }

  /** Step d with the words w of the schedule. */
  function Rounds(r: Quintet, w: seq<Word>): Quintet
    requires |w| <= ROUNDS
  {
    if w == [] then r else Round(Rounds(r, w[..|w| - 1]), |w| - 1, w[|w| - 1])
  }

  function Plus(h: Quintet, r: Quintet): Quintet {
    Quintet(h.a + r.a, h.b + r.b, h.c + r.c, h.d + r.d, h.e + r.e)
  }

  /** All the rounds, then step e of section 7. */
  function Compress(h: Quintet, words: seq<Word>): Quintet
    requires |words| == 16
  {
    Plus(h, Rounds(h, FullSchedule(words)))
  }

  /** Processes every complete 64-byte block of s, in order. */
  function Absorb(h: Quintet, s: seq<Byte>): Quintet
    decreases |s|
  {
    if |s| < 64 then h else Absorb(Compress(h, WordsOf(s[..64])), s[64..])
  }

  function LowByte(w: Word): Byte {
    (w & 0xFF) as Byte
  }

  /** A word as four bytes, most significant first. */
  function BytesOf(w: Word): (r: seq<Byte>)
    ensures |r| == 4
  {
    [ LowByte(w >> 24), LowByte(w >> 16), LowByte(w >> 8), LowByte(w) ]
  }

  /** Words one after the other, each most significant byte first. */
  function Bytes(words: seq<Word>): (r: seq<Byte>)
    ensures |r| == 4 * |words|
  {
    if words == [] then [] else Bytes(words[..|words| - 1]) + BytesOf(words[|words| - 1])
  }

  function Words(h: Quintet): (r: seq<Word>)
    ensures |r| == 5
  {
    [h.a, h.b, h.c, h.d, h.e]
  }

  function Serialise(h: Quintet): (r: seq<Byte>)
    ensures |r| == 20
  {
    Bytes(Words(h))
  }

  /** The digest when the length field holds `bits`. */
  function DigestWith(message: seq<Byte>, bits: nat): (r: seq<Byte>)
    requires bits < TWO_64
    ensures |r| == 20
  {
    Serialise(Absorb(INITIAL, message + Padding(|message|, bits)))
  }

  /** The message digest; the standard defines it for messages of fewer than 2^64 bits. */
  function Digest(message: seq<Byte>): (r: seq<Byte>)
    requires 8 * |message| < TWO_64
    ensures |r| == 20
  {
    DigestWith(message, 8 * |message|)
  }
}
