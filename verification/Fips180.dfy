/** SHA-256 as FIPS 180-4 defines it: the reference that the streaming hasher is proved against. */
module Fips180 {
  import opened Bytes
  import opened FirstPrimes

  type Word = bv32

  // ---------------------------------------------------------------- constants

  /** Section 4.2.2: the sixty-four round constants, eight to a row. */
  const K_ROWS: seq<seq<Word>> := [
    [0x428a2f98, 0x71374491, 0xb5c0fbcf, 0xe9b5dba5, 0x3956c25b, 0x59f111f1, 0x923f82a4, 0xab1c5ed5],
    [0xd807aa98, 0x12835b01, 0x243185be, 0x550c7dc3, 0x72be5d74, 0x80deb1fe, 0x9bdc06a7, 0xc19bf174],
    [0xe49b69c1, 0xefbe4786, 0x0fc19dc6, 0x240ca1cc, 0x2de92c6f, 0x4a7484aa, 0x5cb0a9dc, 0x76f988da],
    [0x983e5152, 0xa831c66d, 0xb00327c8, 0xbf597fc7, 0xc6e00bf3, 0xd5a79147, 0x06ca6351, 0x14292967],
    [0x27b70a85, 0x2e1b2138, 0x4d2c6dfc, 0x53380d13, 0x650a7354, 0x766a0abb, 0x81c2c92e, 0x92722c85],
    [0xa2bfe8a1, 0xa81a664b, 0xc24b8b70, 0xc76c51a3, 0xd192e819, 0xd6990624, 0xf40e3585, 0x106aa070],
    [0x19a4c116, 0x1e376c08, 0x2748774c, 0x34b0bcb5, 0x391c0cb3, 0x4ed8aa4a, 0x5b9cca4f, 0x682e6ff3],
    [0x748f82ee, 0x78a5636f, 0x84c87814, 0x8cc70208, 0x90befffa, 0xa4506ceb, 0xbef9a3f7, 0xc67178f2]
  ]

  /** Section 5.3.3: the initial hash value. */
  const INITIAL: seq<Word> := [
    0x6a09e667, 0xbb67ae85, 0x3c6ef372, 0xa54ff53a, 0x510e527f, 0x9b05688c, 0x1f83d9ab, 0x5be0cd19
  ]

  const TWO32: nat := 0x1_0000_0000

  function Square(n: nat): nat { n * n }
  function Cube(n: nat): nat { n * n * n }

  /** `k` is the first thirty-two fractional bits of the cube root of `p`. */
  ghost predicate CubeRootBits(p: nat, k: nat) {
    k < TWO32 && exists whole: nat :: CubeRootFloor(p, whole * TWO32 + k)
  }

  /** `n` is the cube root of `p`, scaled by 2^32 and rounded down. */
  predicate CubeRootFloor(p: nat, n: nat) {
    Cube(n) <= p * Cube(TWO32) < Cube(n + 1)
  }

  ghost predicate SquareRootBits(p: nat, k: nat) {
    k < TWO32 && exists whole: nat :: SquareRootFloor(p, whole * TWO32 + k)
  }

  predicate SquareRootFloor(p: nat, n: nat) {
    Square(n) <= p * Square(TWO32) < Square(n + 1)
  }

  /** The integer part of the cube root of the `t`-th prime. */
  function CubeRootWhole(t: nat): nat {
    if t < 4 then 1 else if t < 9 then 2 else if t < 18 then 3 else if t < 30 then 4 else if t < 47 then 5 else 6
  }

  lemma TablesAreSquare()
    ensures |K_ROWS| == |PRIME_ROWS| == 8
    ensures forall r :: 0 <= r < 8 ==> |K_ROWS[r]| == |PRIME_ROWS[r]| == 8
  {
  }

  function K(t: nat): (k: Word)
    requires t < 64
  {
    TablesAreSquare();
    K_ROWS[t / 8][t % 8]
  }

  /** Every round constant is what section 4.2.2 derives it from: a cube root of a prime. */
  lemma RoundConstantsAreCubeRoots(t: nat)
    requires t < 64
    ensures |PRIME_ROWS| == 8 && |PRIME_ROWS[t / 8]| == 8
    ensures CubeRootBits(PRIME_ROWS[t / 8][t % 8], K(t) as nat)
  {
    TablesAreSquare();
    if t < 16 { CubeRoots0(t); }
    else if t < 32 { CubeRoots16(t); }
    else if t < 48 { CubeRoots32(t); }
    else { CubeRoots48(t); }
  }

  lemma CubeRoots0(t: nat)
    requires 0 <= t < 16
    ensures |PRIME_ROWS| == 8 && |PRIME_ROWS[t / 8]| == 8
    ensures CubeRootFloor(PRIME_ROWS[t / 8][t % 8], CubeRootWhole(t) * TWO32 + K(t) as nat)
  {
    TablesAreSquare();
  }

  lemma CubeRoots16(t: nat)
    requires 16 <= t < 32
    ensures |PRIME_ROWS| == 8 && |PRIME_ROWS[t / 8]| == 8
    ensures CubeRootFloor(PRIME_ROWS[t / 8][t % 8], CubeRootWhole(t) * TWO32 + K(t) as nat)
  {
    TablesAreSquare();
  }

  lemma CubeRoots32(t: nat)
    requires 32 <= t < 48
    ensures |PRIME_ROWS| == 8 && |PRIME_ROWS[t / 8]| == 8
    ensures CubeRootFloor(PRIME_ROWS[t / 8][t % 8], CubeRootWhole(t) * TWO32 + K(t) as nat)
  {
    TablesAreSquare();
  }

  lemma CubeRoots48(t: nat)
    requires 48 <= t < 64
    ensures |PRIME_ROWS| == 8 && |PRIME_ROWS[t / 8]| == 8
    ensures CubeRootFloor(PRIME_ROWS[t / 8][t % 8], CubeRootWhole(t) * TWO32 + K(t) as nat)
  {
    TablesAreSquare();
  }

  lemma InitialValueIsSquareRoots(i: nat)
    requires i < 8
    ensures |INITIAL| == 8 && |PRIME_ROWS| == 8 && |PRIME_ROWS[0]| == 8
    ensures SquareRootBits(PRIME_ROWS[0][i], INITIAL[i] as nat)
  {
    TablesAreSquare();
    var whole := if i < 2 then 1 else if i < 4 then 2 else if i < 6 then 3 else 4;
    assert SquareRootFloor(PRIME_ROWS[0][i], whole * TWO32 + INITIAL[i] as nat);
  }

  // ---------------------------------------------------------------- functions

  type Block = b: seq<byte> | |b| == 64 witness seq(64, _ => 0)
  type HashValue = h: seq<Word> | |h| == 8 witness seq(8, _ => 0)

  /** Section 3.2: circular right shift by `n`. */
  function RotR(x: Word, n: bv6): Word
    requires n < 32
  {
    (x >> n) | (x << (32 - n))
  }

  /** The built-in rotation is that shift, at every distance the hash uses. */
  lemma RotationIsCircularShift(x: Word)
    ensures x.RotateRight(2) == RotR(x, 2) && x.RotateRight(6) == RotR(x, 6) && x.RotateRight(7) == RotR(x, 7)
    ensures x.RotateRight(11) == RotR(x, 11) && x.RotateRight(13) == RotR(x, 13) && x.RotateRight(17) == RotR(x, 17)
    ensures x.RotateRight(18) == RotR(x, 18) && x.RotateRight(19) == RotR(x, 19) && x.RotateRight(22) == RotR(x, 22)
    ensures x.RotateRight(25) == RotR(x, 25)
  {
  }

  // Section 4.1.2.
  function Ch(x: Word, y: Word, z: Word): Word { (x & y) ^ (!x & z) }
  function Maj(x: Word, y: Word, z: Word): Word { (x & y) ^ (x & z) ^ (y & z) }
  function BigSigma0(x: Word): Word { x.RotateRight(2) ^ x.RotateRight(13) ^ x.RotateRight(22) }
  function BigSigma1(x: Word): Word { x.RotateRight(6) ^ x.RotateRight(11) ^ x.RotateRight(25) }
  function SmallSigma0(x: Word): Word { x.RotateRight(7) ^ x.RotateRight(18) ^ (x >> 3) }
  function SmallSigma1(x: Word): Word { x.RotateRight(17) ^ x.RotateRight(19) ^ (x >> 10) }

  // What these are for, bit by bit.

  /** Bit `i` of a word, the least significant first. */
  predicate Bit(x: Word, i: bv6)
    requires i < 32
  {
    (x >> i) & 1 == 1
  }

  /** Place `n` above `i`, coming round at the top. */
  function Cyclic(i: bv6, n: bv6): (j: bv6)
    requires i < 32 && n < 32
    ensures j < 32
  {
    if i + n < 32 then i + n else i + n - 32
  }

  /** Where `x` has a one, `Ch` takes the bit of `y`, elsewhere that of `z`. */
  lemma ChChooses(x: Word, y: Word, z: Word)
    ensures Ch(x, y, z) & x == y & x
    ensures Ch(x, y, z) & !x == z & !x
  {
  }

  /** Wherever two of the three agree, `Maj` agrees with them. */
  lemma MajIsMajority(x: Word, y: Word, z: Word, places: Word)
    ensures x & places == y & places ==> Maj(x, y, z) & places == x & places
    ensures x & places == z & places ==> Maj(x, y, z) & places == x & places
    ensures y & places == z & places ==> Maj(x, y, z) & places == y & places
  {
    TwoAgree(x, y, z, places);
    TwoAgree(x, z, y, places);
    TwoAgree(y, z, x, places);
    AnyOrder(x, y, z);
    hide Maj;
  }

  lemma TwoAgree(x: Word, y: Word, z: Word, places: Word)
    ensures x & places == y & places ==> Maj(x, y, z) & places == x & places
  {
  }

  lemma AnyOrder(x: Word, y: Word, z: Word)
    ensures Maj(x, y, z) == Maj(x, z, y) && Maj(x, y, z) == Maj(y, z, x)
  {
  }

  lemma XorBit(x: Word, y: Word, z: Word, i: bv6)
    requires i < 32
    ensures Bit(x ^ y ^ z, i) <==> ((Bit(x, i) != Bit(y, i)) != Bit(z, i))
  {
  }

  /** At every distance the hash uses, a rotated word shows the bit that many places up. */
  lemma RotatedBit(x: Word, i: bv6)
    requires i < 32
    ensures Bit(x.RotateRight(2), i) == Bit(x, Cyclic(i, 2)) && Bit(x.RotateRight(6), i) == Bit(x, Cyclic(i, 6))
    ensures Bit(x.RotateRight(7), i) == Bit(x, Cyclic(i, 7)) && Bit(x.RotateRight(11), i) == Bit(x, Cyclic(i, 11))
    ensures Bit(x.RotateRight(13), i) == Bit(x, Cyclic(i, 13)) && Bit(x.RotateRight(17), i) == Bit(x, Cyclic(i, 17))
    ensures Bit(x.RotateRight(18), i) == Bit(x, Cyclic(i, 18)) && Bit(x.RotateRight(19), i) == Bit(x, Cyclic(i, 19))
    ensures Bit(x.RotateRight(22), i) == Bit(x, Cyclic(i, 22)) && Bit(x.RotateRight(25), i) == Bit(x, Cyclic(i, 25))
  {
  }

  lemma ShiftedBit(x: Word, n: bv6, i: bv6)
    requires i < 32 && 0 < n < 32
    ensures Bit(x >> n, i) <==> i + n < 32 && Bit(x, i + n)
  {
  }

  /** Every bit of a sigma is the parity of three bits of its argument, at these distances. */
  lemma SigmaBits(x: Word, i: bv6)
    requires i < 32
    ensures Bit(BigSigma0(x), i) <==> ((Bit(x, Cyclic(i, 2)) != Bit(x, Cyclic(i, 13))) != Bit(x, Cyclic(i, 22)))
    ensures Bit(BigSigma1(x), i) <==> ((Bit(x, Cyclic(i, 6)) != Bit(x, Cyclic(i, 11))) != Bit(x, Cyclic(i, 25)))
    ensures Bit(SmallSigma0(x), i) <==>
            ((Bit(x, Cyclic(i, 7)) != Bit(x, Cyclic(i, 18))) != (i < 29 && Bit(x, i + 3)))
    ensures Bit(SmallSigma1(x), i) <==>
            ((Bit(x, Cyclic(i, 17)) != Bit(x, Cyclic(i, 19))) != (i < 22 && Bit(x, i + 10)))
  {
    BigSigma0Bits(x, i);
    BigSigma1Bits(x, i);
    SmallSigma0Bits(x, i);
    SmallSigma1Bits(x, i);
  }

  lemma BigSigma0Bits(x: Word, i: bv6)
    requires i < 32
    ensures Bit(BigSigma0(x), i) <==> ((Bit(x, Cyclic(i, 2)) != Bit(x, Cyclic(i, 13))) != Bit(x, Cyclic(i, 22)))
  {
    RotatedBit(x, i);
    hide Bit, Cyclic;
    XorBit(x.RotateRight(2), x.RotateRight(13), x.RotateRight(22), i);
  }

  lemma BigSigma1Bits(x: Word, i: bv6)
    requires i < 32
    ensures Bit(BigSigma1(x), i) <==> ((Bit(x, Cyclic(i, 6)) != Bit(x, Cyclic(i, 11))) != Bit(x, Cyclic(i, 25)))
  {
    RotatedBit(x, i);
    hide Bit, Cyclic;
    XorBit(x.RotateRight(6), x.RotateRight(11), x.RotateRight(25), i);
  }

  lemma SmallSigma0Bits(x: Word, i: bv6)
    requires i < 32
    ensures Bit(SmallSigma0(x), i) <==>
            ((Bit(x, Cyclic(i, 7)) != Bit(x, Cyclic(i, 18))) != (i < 29 && Bit(x, i + 3)))
  {
    RotatedBit(x, i);
    hide Bit, Cyclic;
    XorBit(x.RotateRight(7), x.RotateRight(18), x >> 3, i);
    ShiftedBit(x, 3, i);
  }

  lemma SmallSigma1Bits(x: Word, i: bv6)
    requires i < 32
    ensures Bit(SmallSigma1(x), i) <==>
            ((Bit(x, Cyclic(i, 17)) != Bit(x, Cyclic(i, 19))) != (i < 22 && Bit(x, i + 10)))
  {
    RotatedBit(x, i);
    hide Bit, Cyclic;
    XorBit(x.RotateRight(17), x.RotateRight(19), x >> 10, i);
    ShiftedBit(x, 10, i);
  }

  // ---------------------------------------------------------------- preprocessing

  /** Section 5.1.1, in octets: the one bit, the fewest zeros that leave room, the length in bits. */
  function Pad(message: seq<byte>): (padded: seq<byte>)
    requires 8 * |message| < Power256(8)
  {
    PadWithLength(message, 8 * |message|)
  }

  function PadWithLength(message: seq<byte>, bitLength: nat): (padded: seq<byte>)
    ensures |padded| % 64 == 0
  {
    message + [0x80] + Zeros(ZeroCount(|message|)) + BigEndian(bitLength, 8)
  }

  /** After the one bit and `zeros` zero octets, eight octets complete the last block. */
  predicate LeavesRoom(length: nat, zeros: nat) {
    (length + 1 + zeros) % 64 == 56
  }

  /** The least number of zero octets that leaves that room. */
  function ZeroCount(length: nat): (zeros: nat)
    ensures LeavesRoom(length, zeros)
    ensures forall k: nat :: LeavesRoom(length, k) ==> zeros <= k
  {
    (55 - length) % 64
  }

  // ---------------------------------------------------------------- computation

  /** Section 5.2.1: the `t`-th word of a block. */
  function M(block: Block, t: nat): Word
    requires t < 16
  {
    WordOf(block[4 * t..4 * t + 4])
  }

  function WordOf(bs: seq<byte>): Word
    requires |bs| == 4
  {
    (((bs[0] as nat * 256 + bs[1] as nat) * 256 + bs[2] as nat) * 256 + bs[3] as nat) as Word
  }

  lemma WordIsNumber(bs: seq<byte>)
    requires |bs| == 4
    ensures FromBigEndian(bs) < TWO32 && WordOf(bs) == FromBigEndian(bs) as Word
  {
    FromBigEndianFour(bs[0], bs[1], bs[2], bs[3]);
    assert bs == [bs[0], bs[1], bs[2], bs[3]];
  }

  lemma WordFits(w: Word)
    ensures (w as nat) as Word == w
  {
  }

  /** Four octets are read as the word they are the big-endian form of. */
  lemma WordIs(bs: seq<byte>, w: Word)
    requires |bs| == 4 && FromBigEndian(bs) == w as nat
    ensures WordOf(bs) == w
  {
    hide FromBigEndian, WordOf;
    WordIsNumber(bs);
    WordFits(w);
  }

  /** Every word is read back from its four octets, the most significant first. */
  lemma WordRoundTrip(w: Word)
    ensures WordOf(BigEndian(w as nat, 4)) == w
  {
    hide WordOf;
    assert Power256(4) == TWO32;
    BigEndianRoundTrip(w as nat, 4);
    WordIs(BigEndian(w as nat, 4), w);
  }

  /** Section 6.2.2, step 1: the message schedule. */
  function W(block: Block, t: nat): Word
    requires t < 64
    decreases t, block
  {
    if t < 16 then M(block, t)
    else Expand(W(block, t - 2), W(block, t - 7), W(block, t - 15), W(block, t - 16))
  }

  function Expand(w2: Word, w7: Word, w15: Word, w16: Word): Word {
    SmallSigma1(w2) + w7 + SmallSigma0(w15) + w16
  }

  datatype Working = Working(a: Word, b: Word, c: Word, d: Word, e: Word, f: Word, g: Word, h: Word)

  /** Step 2. */
  function Start(hash: HashValue): Working {
    Working(hash[0], hash[1], hash[2], hash[3], hash[4], hash[5], hash[6], hash[7])
  }

  /** Addition modulo 2^32. */
  function Add(x: Word, y: Word): Word { x + y }

  function T1(e: Word, f: Word, g: Word, h: Word, k: Word, w: Word): Word {
    h + BigSigma1(e) + Ch(e, f, g) + k + w
  }

  function T2(a: Word, b: Word, c: Word): Word {
    BigSigma0(a) + Maj(a, b, c)
  }

  /** Step 3, one round. */
  function Round(v: Working, k: Word, w: Word): Working {
    var t1 := T1(v.e, v.f, v.g, v.h, k, w);
    var t2 := T2(v.a, v.b, v.c);
    Working(Add(t1, t2), v.a, v.b, v.c, Add(v.d, t1), v.e, v.f, v.g)
  }

  /** The working variables after the first `t` rounds. */
  function Rounds(hash: HashValue, block: Block, t: nat): Working
    requires t <= 64
    decreases t, block
  {
    if t == 0 then Start(hash) else Round(Rounds(hash, block, t - 1), K(t - 1), W(block, t - 1))
  }

  /** Step 4: the next hash value. */
  function Compress(hash: HashValue, block: Block): HashValue {
    var v := Rounds(hash, block, 64);
    [Add(hash[0], v.a), Add(hash[1], v.b), Add(hash[2], v.c), Add(hash[3], v.d),
     Add(hash[4], v.e), Add(hash[5], v.f), Add(hash[6], v.g), Add(hash[7], v.h)]
  }

  function InitialHash(): HashValue { INITIAL }

  /** Section 6.2.2: the hash value after every 512-bit block of `message`. */
  function HashBlocks(hash: HashValue, message: seq<byte>): HashValue
    requires |message| % 64 == 0
    decreases |message|
  {
    if message == [] then hash else HashBlocks(Compress(hash, message[..64]), message[64..])
  }

  function Digest(hash: HashValue): (digest: seq<byte>)
    ensures |digest| == 32
  {
    DigestWords(hash)
  }

  function DigestWords(words: seq<Word>): (digest: seq<byte>)
    ensures |digest| == 4 * |words|
  {
    if words == [] then [] else DigestWords(words[..|words| - 1]) + BigEndian(words[|words| - 1] as nat, 4)
  }

  /** SHA-256. */
  function Sha256(message: seq<byte>): (digest: seq<byte>)
    requires 8 * |message| < Power256(8)
    ensures |digest| == 32
  {
    Digest(HashBlocks(InitialHash(), Pad(message)))
  }

  /** Each block is worked from the hash value it finds. */
  lemma BlocksAreChained(hash: HashValue, block: Block)
    ensures HashBlocks(hash, block) == Compress(hash, block)
    ensures var start := Rounds(hash, block, 0);
            [start.a, start.b, start.c, start.d, start.e, start.f, start.g, start.h] == hash
  {
    assert block[..64] == block && block[64..] == [];
    hide Round, W, Compress;
  }

  /** And its working variables are added to that value. */
  lemma WorkIsAdded(hash: HashValue, block: Block)
    ensures var end := Rounds(hash, block, 64);
            Compress(hash, block) ==
            [Add(hash[0], end.a), Add(hash[1], end.b), Add(hash[2], end.c), Add(hash[3], end.d),
             Add(hash[4], end.e), Add(hash[5], end.f), Add(hash[6], end.g), Add(hash[7], end.h)]
  {
    hide Rounds, Add;
  }

  /** Hashing block by block can stop and go on at any block boundary. */
  lemma {:induction false} HashBlocksAppend(hash: HashValue, a: seq<byte>, b: seq<byte>)
    requires |a| % 64 == 0 && |b| % 64 == 0
    ensures HashBlocks(hash, a + b) == HashBlocks(HashBlocks(hash, a), b)
    decreases |a|
  {
    if a == [] {
      assert a + b == b;
    } else {
      assert (a + b)[..64] == a[..64] && (a + b)[64..] == a[64..] + b;
      HashBlocksAppend(Compress(hash, a[..64]), a[64..], b);
    }
  }
}
