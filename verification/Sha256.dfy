/** The secure hash algorithm SHA-256 as FIPS 180-4 defines it, on 32-bit words. */
module Sha256 {
  type Octet = bv8  // bytes on which bit operations are defined
  type Word = bv32

  // Section 3.2: operations on 32-bit words.

  function Plus(x: Word, y: Word): Word { x + y }

  function Xor3(x: Word, y: Word, z: Word): Word { x ^ y ^ z }

  function Rotr(x: Word, n: bv8): Word
    requires n < 32
  {
    (x >> n) | (x << (32 - n))
  }

  function Shr(x: Word, n: bv8): Word
    requires n < 32
  {
    x >> n
  }

  // Section 4.1.2: functions.

  function Ch(x: Word, y: Word, z: Word): Word { (x & y) ^ (!x & z) }
  function Maj(x: Word, y: Word, z: Word): Word { (x & y) ^ (x & z) ^ (y & z) }
  function BigSigma0(x: Word): Word { Xor3(Rotr(x, 2), Rotr(x, 13), Rotr(x, 22)) }
  function BigSigma1(x: Word): Word { Xor3(Rotr(x, 6), Rotr(x, 11), Rotr(x, 25)) }
  function SmallSigma0(x: Word): Word { Xor3(Rotr(x, 7), Rotr(x, 18), Shr(x, 3)) }
  function SmallSigma1(x: Word): Word { Xor3(Rotr(x, 17), Rotr(x, 19), Shr(x, 10)) }

  /** Section 4.2.2: constants. */
  const K: seq<Word> :=
    [0x428a2f98, 0x71374491, 0xb5c0fbcf, 0xe9b5dba5, 0x3956c25b, 0x59f111f1, 0x923f82a4, 0xab1c5ed5] +
    [0xd807aa98, 0x12835b01, 0x243185be, 0x550c7dc3, 0x72be5d74, 0x80deb1fe, 0x9bdc06a7, 0xc19bf174] +
    [0xe49b69c1, 0xefbe4786, 0x0fc19dc6, 0x240ca1cc, 0x2de92c6f, 0x4a7484aa, 0x5cb0a9dc, 0x76f988da] +
    [0x983e5152, 0xa831c66d, 0xb00327c8, 0xbf597fc7, 0xc6e00bf3, 0xd5a79147, 0x06ca6351, 0x14292967] +
    [0x27b70a85, 0x2e1b2138, 0x4d2c6dfc, 0x53380d13, 0x650a7354, 0x766a0abb, 0x81c2c92e, 0x92722c85] +
    [0xa2bfe8a1, 0xa81a664b, 0xc24b8b70, 0xc76c51a3, 0xd192e819, 0xd6990624, 0xf40e3585, 0x106aa070] +
    [0x19a4c116, 0x1e376c08, 0x2748774c, 0x34b0bcb5, 0x391c0cb3, 0x4ed8aa4a, 0x5b9cca4f, 0x682e6ff3] +
    [0x748f82ee, 0x78a5636f, 0x84c87814, 0x8cc70208, 0x90befffa, 0xa4506ceb, 0xbef9a3f7, 0xc67178f2]

  /** Section 5.3.3: initial hash value. */
  const INITIAL: seq<Word> := [
    0x6a09e667, 0xbb67ae85, 0x3c6ef372, 0xa54ff53a, 0x510e527f, 0x9b05688c, 0x1f83d9ab, 0x5be0cd19
  ]

  /** A hash value, or the working variables a to h. */
  datatype State = State(a: Word, b: Word, c: Word, d: Word, e: Word, f: Word, g: Word, h: Word)

  const INITIAL_STATE := State(INITIAL[0], INITIAL[1], INITIAL[2], INITIAL[3], INITIAL[4], INITIAL[5], INITIAL[6],
                               INITIAL[7])

  type Block = b: seq<Octet> | |b| == 64 witness seq(64, _ => 0)

  function BytesToWord(b0: Octet, b1: Octet, b2: Octet, b3: Octet): Word {
    ((b0 as Word) << 24) | ((b1 as Word) << 16) | ((b2 as Word) << 8) | (b3 as Word)
  }

  /** Section 5.2.1: word `t` of a block, most significant byte first. */
  function BlockWord(block: Block, t: nat): Word
    requires t < 16
  {
    BytesToWord(block[4 * t], block[4 * t + 1], block[4 * t + 2], block[4 * t + 3])
  }

  /** Section 6.2.2, step 1: the message schedule. */
  function W(block: Block, t: nat): Word
    requires t < 64
  {
    if t < 16 then BlockWord(block, t)
    else Scheduled(W(block, t - 2), W(block, t - 7), W(block, t - 15), W(block, t - 16))
  }

  function Scheduled(w2: Word, w7: Word, w15: Word, w16: Word): Word {
    Plus(Plus(Plus(SmallSigma1(w2), w7), SmallSigma0(w15)), w16)
  }

  /** Step 3: T1 and T2. */
  function T1(s: State, k: Word, w: Word): Word {
    Plus(Plus(Plus(Plus(s.h, BigSigma1(s.e)), Ch(s.e, s.f, s.g)), k), w)
  }

  function T2(s: State): Word {
    Plus(BigSigma0(s.a), Maj(s.a, s.b, s.c))
  }

  /** Step 3, for one t. */
  function Round(s: State, k: Word, w: Word): State {
    State(Plus(T1(s, k, w), T2(s)), s.a, s.b, s.c, Plus(s.d, T1(s, k, w)), s.e, s.f, s.g)
  }

  /** The working variables after `t` rounds. */
  function Rounds(s: State, block: Block, t: nat): State
    requires t <= 64
  {
    if t == 0 then s else Round(Rounds(s, block, t - 1), K[t - 1], W(block, t - 1))
  }

  /** Step 4. */
  function Sum(s: State, r: State): State {
    State(Plus(s.a, r.a), Plus(s.b, r.b), Plus(s.c, r.c), Plus(s.d, r.d), Plus(s.e, r.e), Plus(s.f, r.f),
          Plus(s.g, r.g), Plus(s.h, r.h))
  }

  /** Steps 2 to 4: the next intermediate hash value. */
  function Compress(s: State, block: Block): State {
    Sum(s, Rounds(s, block, 64))
  }

  /** The blocks of a message, one after the other. */
  function Fold(s: State, message: seq<Octet>): State
    requires |message| % 64 == 0
    decreases |message|
  {
    if message == [] then s else Fold(Compress(s, message[..64]), message[64..])
  }

  /** A number as `n` bytes, most significant first. */
  function BigEndian(x: nat, n: nat): (bytes: seq<Octet>)
    ensures |bytes| == n
  {
    if n == 0 then [] else BigEndian(x / 256, n - 1) + [(x % 256) as Octet]
  }

  function Zeros(n: nat): (bytes: seq<Octet>)
    ensures |bytes| == n
  {
    seq(n, _ => 0)
  }

  /**
   * Zero bytes between the bit 1 (with seven more zero bits) and the 64-bit
   * length: the least number that fills a block.
   */
  function PaddingZeros(length: nat): (zeros: nat)
    ensures zeros < 64 && (length + 1 + zeros + 8) % 64 == 0
  {
    var used := (length + 9) % 64;
    if used == 0 then 0 else 64 - used
  }

  /** Section 5.1.1: the padded message. */
  function Padded(message: seq<Octet>): (padded: seq<Octet>)
    ensures |padded| % 64 == 0
  {
    message + [0x80] + Zeros(PaddingZeros(|message|)) + BigEndian(8 * |message|, 8)
  }

  function WordByte(x: Word, n: bv8): Octet
    requires n < 32
  {
    ((x >> n) & 0xff) as Octet
  }

  function WordBytes(x: Word): (bytes: seq<Octet>)
    ensures |bytes| == 4
  {
    [WordByte(x, 24), WordByte(x, 16), WordByte(x, 8), WordByte(x, 0)]
  }

  function StateBytes(s: State): (bytes: seq<Octet>)
    ensures |bytes| == 32
  {
    WordBytes(s.a) + WordBytes(s.b) + WordBytes(s.c) + WordBytes(s.d) +
    WordBytes(s.e) + WordBytes(s.f) + WordBytes(s.g) + WordBytes(s.h)
  }

  /** Section 6.2: the message digest. */
  function Digest(message: seq<Octet>): seq<Octet> {
    StateBytes(Fold(INITIAL_STATE, Padded(message)))
  }

  lemma FoldStep(s: State, block: Block, rest: seq<Octet>)
    requires |rest| % 64 == 0
    ensures |block + rest| % 64 == 0 && Fold(s, block + rest) == Fold(Compress(s, block), rest)
  {
    hide Compress;
    assert (block + rest)[..64] == block && (block + rest)[64..] == rest;
  }

  lemma {:induction false} FoldAppend(s: State, m: seq<Octet>, n: seq<Octet>)
    requires |m| % 64 == 0 && |n| % 64 == 0
    ensures |m + n| % 64 == 0
    ensures Fold(s, m + n) == Fold(Fold(s, m), n)
    decreases |m|
  {
    hide Compress;
    if m == [] {
      assert m + n == n;
    } else {
      var block, rest := m[..64], m[64..];
      assert m == block + rest && m + n == block + (rest + n);
      FoldAppend(Compress(s, block), rest, n);
      hide Fold;
      FoldStep(s, block, rest);
      FoldStep(s, block, rest + n);
    }
  }

  lemma FoldOne(s: State, block: Block)
    ensures Fold(s, block) == Compress(s, block)
  {
    hide Compress;
    assert block[..64] == block && block[64..] == [];
  }
}
