/** SHA-256 as FIPS 180-4 defines it: the reference that the streaming
    implementation in Sha256.dfy is proved against. */
module Fips180 {
  import opened Bytes

  /** A word of 32 bits, as the number it stands for (section 2.2.2). */
  type Word = x: int | 0 <= x < 0x1_0000_0000

  /** Addition modulo 2^32. */
  function Add(x: Word, y: Word): Word { (x + y) % 0x1_0000_0000 }

  function Bits(x: Word): bv32 { x as bv32 }
  function Value(b: bv32): Word { b as int }

  // ---------- Section 4.1.2: the six logical functions ----------

  function ChBits(x: bv32, y: bv32, z: bv32): bv32 { (x & y) ^ (!x & z) }
  function MajBits(x: bv32, y: bv32, z: bv32): bv32 { (x & y) ^ (x & z) ^ (y & z) }
  function BigSigma0Bits(b: bv32): bv32 { b.RotateRight(2) ^ b.RotateRight(13) ^ b.RotateRight(22) }
  function BigSigma1Bits(b: bv32): bv32 { b.RotateRight(6) ^ b.RotateRight(11) ^ b.RotateRight(25) }
  function SmallSigma0Bits(b: bv32): bv32 { b.RotateRight(7) ^ b.RotateRight(18) ^ (b >> 3) }
  function SmallSigma1Bits(b: bv32): bv32 { b.RotateRight(17) ^ b.RotateRight(19) ^ (b >> 10) }

  function Ch(x: Word, y: Word, z: Word): Word { Value(ChBits(Bits(x), Bits(y), Bits(z))) }
  function Maj(x: Word, y: Word, z: Word): Word { Value(MajBits(Bits(x), Bits(y), Bits(z))) }
  function BigSigma0(x: Word): Word { Value(BigSigma0Bits(Bits(x))) }
  function BigSigma1(x: Word): Word { Value(BigSigma1Bits(Bits(x))) }
  function SmallSigma0(x: Word): Word { Value(SmallSigma0Bits(Bits(x))) }
  function SmallSigma1(x: Word): Word { Value(SmallSigma1Bits(Bits(x))) }

  // ---------- Sections 4.2.2 and 5.3.3: the constants ----------

  function Prime(t: nat): nat {
    match t
    case 0 => 2 case 1 => 3 case 2 => 5 case 3 => 7 case 4 => 11 case 5 => 13 case 6 => 17 case 7 => 19
    case 8 => 23 case 9 => 29 case 10 => 31 case 11 => 37 case 12 => 41 case 13 => 43 case 14 => 47 case 15 => 53
    case 16 => 59 case 17 => 61 case 18 => 67 case 19 => 71 case 20 => 73 case 21 => 79 case 22 => 83 case 23 => 89
    case 24 => 97 case 25 => 101 case 26 => 103 case 27 => 107 case 28 => 109 case 29 => 113 case 30 => 127 case 31 => 131
    case 32 => 137 case 33 => 139 case 34 => 149 case 35 => 151 case 36 => 157 case 37 => 163 case 38 => 167 case 39 => 173
    case 40 => 179 case 41 => 181 case 42 => 191 case 43 => 193 case 44 => 197 case 45 => 199 case 46 => 211 case 47 => 223
    case 48 => 227 case 49 => 229 case 50 => 233 case 51 => 239 case 52 => 241 case 53 => 251 case 54 => 257 case 55 => 263
    case 56 => 269 case 57 => 271 case 58 => 277 case 59 => 281 case 60 => 283 case 61 => 293 case 62 => 307 case 63 => 311
    case _ => 0
  }

  function K256(t: nat): Word {
    match t
    case 0 => 0x428a2f98 case 1 => 0x71374491 case 2 => 0xb5c0fbcf case 3 => 0xe9b5dba5
    case 4 => 0x3956c25b case 5 => 0x59f111f1 case 6 => 0x923f82a4 case 7 => 0xab1c5ed5
    case 8 => 0xd807aa98 case 9 => 0x12835b01 case 10 => 0x243185be case 11 => 0x550c7dc3
    case 12 => 0x72be5d74 case 13 => 0x80deb1fe case 14 => 0x9bdc06a7 case 15 => 0xc19bf174
    case 16 => 0xe49b69c1 case 17 => 0xefbe4786 case 18 => 0x0fc19dc6 case 19 => 0x240ca1cc
    case 20 => 0x2de92c6f case 21 => 0x4a7484aa case 22 => 0x5cb0a9dc case 23 => 0x76f988da
    case 24 => 0x983e5152 case 25 => 0xa831c66d case 26 => 0xb00327c8 case 27 => 0xbf597fc7
    case 28 => 0xc6e00bf3 case 29 => 0xd5a79147 case 30 => 0x06ca6351 case 31 => 0x14292967
    case 32 => 0x27b70a85 case 33 => 0x2e1b2138 case 34 => 0x4d2c6dfc case 35 => 0x53380d13
    case 36 => 0x650a7354 case 37 => 0x766a0abb case 38 => 0x81c2c92e case 39 => 0x92722c85
    case 40 => 0xa2bfe8a1 case 41 => 0xa81a664b case 42 => 0xc24b8b70 case 43 => 0xc76c51a3
    case 44 => 0xd192e819 case 45 => 0xd6990624 case 46 => 0xf40e3585 case 47 => 0x106aa070
    case 48 => 0x19a4c116 case 49 => 0x1e376c08 case 50 => 0x2748774c case 51 => 0x34b0bcb5
    case 52 => 0x391c0cb3 case 53 => 0x4ed8aa4a case 54 => 0x5b9cca4f case 55 => 0x682e6ff3
    case 56 => 0x748f82ee case 57 => 0x78a5636f case 58 => 0x84c87814 case 59 => 0x8cc70208
    case 60 => 0x90befffa case 61 => 0xa4506ceb case 62 => 0xbef9a3f7 case 63 => 0xc67178f2
    case _ => 0
  }

  function H256(i: nat): Word {
    match i
    case 0 => 0x6a09e667 case 1 => 0xbb67ae85 case 2 => 0x3c6ef372 case 3 => 0xa54ff53a
    case 4 => 0x510e527f case 5 => 0x9b05688c case 6 => 0x1f83d9ab case 7 => 0x5be0cd19
    case _ => 0
  }

  /** k is the first thirty-two bits of the fractional part of the cube root of
      p, whose integer part is root. */
  predicate CubeRootFraction(p: nat, root: nat, k: nat) {
    var q := root * 0x1_0000_0000 + k;
    && k < 0x1_0000_0000
    && q * q * q <= p * 0x1_0000_0000_0000_0000_0000_0000 < (q + 1) * (q + 1) * (q + 1)
  }

  /** k is the first thirty-two bits of the fractional part of the square root of
      p, whose integer part is root. */
  predicate SquareRootFraction(p: nat, root: nat, k: nat) {
    var q := root * 0x1_0000_0000 + k;
    && k < 0x1_0000_0000
    && q * q <= p * 0x1_0000_0000_0000_0000 < (q + 1) * (q + 1)
  }

  /** The integer part of the cube root of a prime in the table. */
  function CubeRoot(p: nat): nat {
    if p < 8 then 1 else if p < 27 then 2 else if p < 64 then 3
    else if p < 125 then 4 else if p < 216 then 5 else 6
  }

  function SquareRoot(p: nat): nat {
    if p < 4 then 1 else if p < 9 then 2 else if p < 16 then 3 else 4
  }

  /** Every constant is the fraction FIPS 180-4 says it is. */
  lemma ConstantsAreRoots(t: nat)
    requires t < 64
    ensures CubeRootFraction(Prime(t), CubeRoot(Prime(t)), K256(t))
    ensures t < 8 ==> SquareRootFraction(Prime(t), SquareRoot(Prime(t)), H256(t))
  {
  }

  // ---------- Section 6.2.2: the compression function ----------

  /** The eight working variables. */
  datatype Regs = Regs(a: Word, b: Word, c: Word, d: Word, e: Word, f: Word, g: Word, h: Word)

  function InitialHash(): Regs {
    Regs(H256(0), H256(1), H256(2), H256(3), H256(4), H256(5), H256(6), H256(7))
  }

  /** Word t of the 64-word message schedule of a block of sixteen words. */
  function Schedule(m: seq<Word>, t: nat): Word
    requires |m| == 16
  {
    if t < 16 then m[t]
    else Add(Add(Add(SmallSigma1(Schedule(m, t - 2)), Schedule(m, t - 7)),
                 SmallSigma0(Schedule(m, t - 15))), Schedule(m, t - 16))
  }

  /** One round: the eight variables move along by one place. */
  function Round(r: Regs, k: Word, w: Word): Regs {
    var t1 := Add(Add(Add(Add(r.h, BigSigma1(r.e)), Ch(r.e, r.f, r.g)), k), w);
    var t2 := Add(BigSigma0(r.a), Maj(r.a, r.b, r.c));
    Regs(Add(t1, t2), r.a, r.b, r.c, Add(r.d, t1), r.e, r.f, r.g)
  }

  /** The working variables after the first t rounds. */
  function Rounds(start: Regs, m: seq<Word>, t: nat): Regs
    requires |m| == 16
  {
    if t == 0 then start
    else Round(Rounds(start, m, t - 1), K256(t - 1), Schedule(m, t - 1))
  }

  function AddRegs(x: Regs, y: Regs): Regs {
    Regs(Add(x.a, y.a), Add(x.b, y.b), Add(x.c, y.c), Add(x.d, y.d),
         Add(x.e, y.e), Add(x.f, y.f), Add(x.g, y.g), Add(x.h, y.h))
  }

  function Compress(start: Regs, m: seq<Word>): Regs
    requires |m| == 16
  {
    AddRegs(start, Rounds(start, m, 64))
  }

  // ---------- Sections 5.1.1, 5.2.1 and 6.2: padding, parsing, hashing ----------

  /** The big-endian word at offset p. */
  function WordAt(s: seq<byte>, p: nat): Word
    requires p + 4 <= |s|
  {
    var b0: int, b1: int, b2: int, b3: int := s[p], s[p + 1], s[p + 2], s[p + 3];
    b0 * 0x100_0000 + b1 * 0x1_0000 + b2 * 0x100 + b3
  }

  function BlockWords(block: seq<byte>): (m: seq<Word>)
    requires |block| == 64
    ensures |m| == 16
  {
    seq(16, i requires 0 <= i < 16 => WordAt(block, 4 * i))
  }

  /** The hash value after the whole blocks in data. */
  function HashBlocks(start: Regs, data: seq<byte>): Regs
    requires |data| % 64 == 0
  {
    if data == [] then start
    else
      var n := |data| - 64;
      Compress(HashBlocks(start, data[..n]), BlockWords(data[n..]))
  }

  /** A 64-bit length, big-endian. */
  function Length64(bits: nat): (s: seq<byte>)
    ensures |s| == 8
  {
    [(bits / 0x100_0000_0000_0000) % 256, (bits / 0x1_0000_0000_0000) % 256,
     (bits / 0x100_0000_0000) % 256, (bits / 0x1_0000_0000) % 256,
     (bits / 0x100_0000) % 256, (bits / 0x1_0000) % 256,
     (bits / 0x100) % 256, bits % 256]
  }

  /** The number of zero bytes between the 0x80 byte and the length. */
  function PadZeros(n: nat): (k: nat)
    ensures k < 64 && (n + 1 + k + 8) % 64 == 0
  {
    (119 - n % 64) % 64
  }

  function Padding(n: nat): (s: seq<byte>)
    ensures (n + |s|) % 64 == 0
  {
    [0x80] + Zeros(PadZeros(n)) + Length64(8 * n % 0x1_0000_0000_0000_0000)
  }

  function Padded(message: seq<byte>): (s: seq<byte>)
    ensures |s| % 64 == 0
  {
    message + Padding(|message|)
  }

  /** Hashing two runs of whole blocks one after the other is hashing both at once. */
  lemma {:induction false} HashBlocksAppend(start: Regs, left: seq<byte>, right: seq<byte>)
    requires |left| % 64 == 0 && |right| % 64 == 0
    ensures HashBlocks(start, left + right) == HashBlocks(HashBlocks(start, left), right)
    decreases |right|
  {
    hide Compress, BlockWords;
    if right == [] {
      assert left + right == left;
    } else {
      var n := |right| - 64;
      assert (left + right)[..|left + right| - 64] == left + right[..n];
      assert (left + right)[|left + right| - 64..] == right[n..];
      HashBlocksAppend(start, left, right[..n]);
    }
  }

  lemma HashNextBlock(start: Regs, left: seq<byte>, block: seq<byte>)
    requires |left| % 64 == 0 && |block| == 64
    ensures HashBlocks(start, left + block) == Compress(HashBlocks(start, left), BlockWords(block))
  {
  }

  function WordBytes(w: Word): (s: seq<byte>)
    ensures |s| == 4
  {
    [w / 0x100_0000, (w / 0x1_0000) % 256, (w / 0x100) % 256, w % 256]
  }

  function RegsBytes(r: Regs): (s: seq<byte>)
    ensures |s| == 32
  {
    WordBytes(r.a) + WordBytes(r.b) + WordBytes(r.c) + WordBytes(r.d)
    + WordBytes(r.e) + WordBytes(r.f) + WordBytes(r.g) + WordBytes(r.h)
  }

  /** The SHA-256 digest of a message. FIPS 180-4 defines it below 2^64 bits. */
  function Sha256(message: seq<byte>): (digest: seq<byte>)
    ensures |digest| == 32
  {
    RegsBytes(HashBlocks(InitialHash(), Padded(message)))
  }
}
