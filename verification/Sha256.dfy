/** The streaming SHA-256 of external/fh_loader/fh_loader_sha.c: an unrolled
    transform over a ring of sixteen words, and a context that buffers partial
    blocks, proved to compute the digest of FIPS 180-4. */
module Sha256 {
  import opened Bytes
  import opened Fips180

  // ---------- The round macros ----------

  function Sigma0MacroBits(b: bv32): (r: bv32)
    ensures r == BigSigma0Bits(b)
  {
    ((b >> 2) | (b << 30)) ^ ((b >> 13) | (b << 19)) ^ ((b >> 22) | (b << 10))
  }

  function Sigma1MacroBits(b: bv32): (r: bv32)
    ensures r == BigSigma1Bits(b)
  {
    ((b >> 6) | (b << 26)) ^ ((b >> 11) | (b << 21)) ^ ((b >> 25) | (b << 7))
  }

  function LittleSigma0MacroBits(b: bv32): (r: bv32)
    ensures r == SmallSigma0Bits(b)
  {
    ((b >> 7) | (b << 25)) ^ ((b >> 18) | (b << 14)) ^ (b >> 3)
  }

  function LittleSigma1MacroBits(b: bv32): (r: bv32)
    ensures r == SmallSigma1Bits(b)
  {
    ((b >> 17) | (b << 15)) ^ ((b >> 19) | (b << 13)) ^ (b >> 10)
  }

  function Sigma0Macro(x: Word): Word { Value(Sigma0MacroBits(Bits(x))) }
  function Sigma1Macro(x: Word): Word { Value(Sigma1MacroBits(Bits(x))) }
  function LittleSigma0Macro(x: Word): Word { Value(LittleSigma0MacroBits(Bits(x))) }
  function LittleSigma1Macro(x: Word): Word { Value(LittleSigma1MacroBits(Bits(x))) }

  /** The ring holds the last sixteen schedule words before word j. */
  ghost predicate RingHolds(ring: seq<Word>, m: seq<Word>, j: nat)
    requires |m| == 16
  {
    && |ring| == 16
    && forall t: nat :: t < j <= t + 16 ==> ring[t % 16] == Schedule(m, t)
  }

  lemma AddAssociates(x: Word, y: Word, z: Word)
    ensures Add(Add(x, y), z) == Add(x, Add(y, z))
  {
  }

  /** What a round writes to two of the eight registers, given T1. */
  lemma RoundFromT1(r: Regs, k: Word, w: Word, t1: Word)
    requires t1 == Add(Add(Add(Add(r.h, BigSigma1(r.e)), Ch(r.e, r.f, r.g)), k), w)
    ensures Round(r, k, w)
            == Regs(Add(Add(t1, BigSigma0(r.a)), Maj(r.a, r.b, r.c)), r.a, r.b, r.c, Add(r.d, t1), r.e, r.f, r.g)
  {
    AddAssociates(t1, BigSigma0(r.a), Maj(r.a, r.b, r.c));
  }

  /** m is the block data read as sixteen big-endian words. */
  ghost predicate IsBlock(data: seq<byte>, m: seq<Word>) {
    && |data| == 64 && |m| == 16
    && forall i | 0 <= i < 16 :: m[i] == WordAt(data, 4 * i)
  }

  /** ROUND256_0_TO_15: loads word j of the block into the ring, then one round.
      The caller keeps the registers in place and rotates their names instead. */
  method FirstRound(a: Word, b: Word, c: Word, d: Word, e: Word, f: Word, g: Word, h: Word,
                    ring: array<Word>, data: seq<byte>, ghost m: seq<Word>, j: nat, ghost start: Regs)
    returns (d': Word, h': Word)
    requires ring.Length == 16 && j < 16 && IsBlock(data, m)
    requires RingHolds(ring[..], m, j)
    requires Regs(a, b, c, d, e, f, g, h) == Rounds(start, m, j)
    modifies ring
    ensures RingHolds(ring[..], m, j + 1)
    ensures Regs(h', a, b, c, d', e, f, g) == Rounds(start, m, j + 1)
  {
    hide Add, Value, Bits, K256, WordAt, RingHolds;
    ghost var before := ring[..];
    ring[j] := WordAt(data, 4 * j);
    assert ring[..] == before[j % 16 := Schedule(m, j)];
    RingAdvance(before, m, j);
    var t1 := Add(Add(Add(Add(h, Sigma1Macro(e)), Ch(e, f, g)), K256(j)), ring[j]);
    RoundFromT1(Regs(a, b, c, d, e, f, g, h), K256(j), m[j], t1);
    d' := Add(d, t1);
    h' := Add(Add(t1, Sigma0Macro(a)), Maj(a, b, c));
  }

  lemma RingAdvance(ring: seq<Word>, m: seq<Word>, j: nat)
    requires |m| == 16 && RingHolds(ring, m, j)
    ensures RingHolds(ring[j % 16 := Schedule(m, j)], m, j + 1)
  {
  }

  /** ROUND256: replaces the oldest ring word by schedule word j, then one round. */
  method LaterRound(a: Word, b: Word, c: Word, d: Word, e: Word, f: Word, g: Word, h: Word,
                    ring: array<Word>, ghost m: seq<Word>, j: nat, ghost start: Regs)
    returns (d': Word, h': Word)
    requires ring.Length == 16 && |m| == 16 && 16 <= j < 64
    requires RingHolds(ring[..], m, j)
    requires Regs(a, b, c, d, e, f, g, h) == Rounds(start, m, j)
    modifies ring
    ensures RingHolds(ring[..], m, j + 1)
    ensures Regs(h', a, b, c, d', e, f, g) == Rounds(start, m, j + 1)
  {
    ghost var before := ring[..];
    RingReads(before, m, j);
    var s0 := LittleSigma0Macro(ring[(j + 1) % 16]);
    var s1 := LittleSigma1Macro(ring[(j + 14) % 16]);
    var w := Add(ring[j % 16], Add(Add(s1, ring[(j + 9) % 16]), s0));
    ring[j % 16] := w;
    ScheduleSum(m, j, w);
    assert ring[..] == before[j % 16 := Schedule(m, j)];
    RingAdvance(before, m, j);
    var t1 := Add(Add(Add(Add(h, Sigma1Macro(e)), Ch(e, f, g)), K256(j)), w);
    RoundFromT1(Regs(a, b, c, d, e, f, g, h), K256(j), w, t1);
    d' := Add(d, t1);
    h' := Add(Add(t1, Sigma0Macro(a)), Maj(a, b, c));
  }

  /** The four ring slots a later round reads are the four words of the schedule's recurrence. */
  lemma RingReads(ring: seq<Word>, m: seq<Word>, j: nat)
    requires |m| == 16 && 16 <= j && RingHolds(ring, m, j)
    ensures ring[(j + 1) % 16] == Schedule(m, j - 15)
    ensures ring[(j + 14) % 16] == Schedule(m, j - 2)
    ensures ring[(j + 9) % 16] == Schedule(m, j - 7)
    ensures ring[j % 16] == Schedule(m, j - 16)
  {
    assert ring[(j - 15) % 16] == Schedule(m, j - 15);
    assert ring[(j - 2) % 16] == Schedule(m, j - 2);
    assert ring[(j - 7) % 16] == Schedule(m, j - 7);
    assert ring[(j - 16) % 16] == Schedule(m, j - 16);
  }

  lemma ScheduleSum(m: seq<Word>, j: nat, w: Word)
    requires |m| == 16 && 16 <= j
    requires w == Add(Schedule(m, j - 16),
                      Add(Add(SmallSigma1(Schedule(m, j - 2)), Schedule(m, j - 7)), SmallSigma0(Schedule(m, j - 15))))
    ensures w == Schedule(m, j)
  {
  }

  // ---------- The transform ----------

  function RegsOf(state: seq<Word>): Regs
    requires |state| == 8
  {
    Regs(state[0], state[1], state[2], state[3], state[4], state[5], state[6], state[7])
  }

  lemma NoRounds(state: seq<Word>, ring: seq<Word>, m: seq<Word>)
    requires |state| == 8 && |ring| == 16 && |m| == 16
    ensures RingHolds(ring, m, 0)
    ensures Regs(state[0], state[1], state[2], state[3], state[4], state[5], state[6], state[7])
         == Rounds(RegsOf(state), m, 0)
  {
  }

  /** The first loop of the transform: rounds 0 to 15, eight to an iteration, so
      that the names of the registers are back in place at the loop head. */
  method FirstRounds(state: seq<Word>, ring: array<Word>, data: seq<byte>, ghost m: seq<Word>)
    returns (a: Word, b: Word, c: Word, d: Word, e: Word, f: Word, g: Word, h: Word)
    requires |state| == 8 && ring.Length == 16 && |m| == 16 && IsBlock(data, m)
    modifies ring
    ensures RingHolds(ring[..], m, 16)
    ensures Regs(a, b, c, d, e, f, g, h) == Rounds(RegsOf(state), m, 16)
  {
    hide *;
    ghost var start := RegsOf(state);
    a, b, c, d := state[0], state[1], state[2], state[3];
    e, f, g, h := state[4], state[5], state[6], state[7];
    var j := 0;
    NoRounds(state, ring[..], m);
    while j < 16
      invariant j == 0 || j == 8 || j == 16
      invariant RingHolds(ring[..], m, j)
      invariant Regs(a, b, c, d, e, f, g, h) == Rounds(start, m, j)
    {
      d, h := FirstRound(a, b, c, d, e, f, g, h, ring, data, m, j, start);
      c, g := FirstRound(h, a, b, c, d, e, f, g, ring, data, m, j + 1, start);
      b, f := FirstRound(g, h, a, b, c, d, e, f, ring, data, m, j + 2, start);
      a, e := FirstRound(f, g, h, a, b, c, d, e, ring, data, m, j + 3, start);
      h, d := FirstRound(e, f, g, h, a, b, c, d, ring, data, m, j + 4, start);
      g, c := FirstRound(d, e, f, g, h, a, b, c, ring, data, m, j + 5, start);
      f, b := FirstRound(c, d, e, f, g, h, a, b, ring, data, m, j + 6, start);
      e, a := FirstRound(b, c, d, e, f, g, h, a, ring, data, m, j + 7, start);
      j := j + 8;
    }
  }

  /** The second loop of the transform: rounds 16 to 63. */
  method LaterRounds(a0: Word, b0: Word, c0: Word, d0: Word, e0: Word, f0: Word, g0: Word, h0: Word,
                     ring: array<Word>, ghost m: seq<Word>, ghost start: Regs)
    returns (a: Word, b: Word, c: Word, d: Word, e: Word, f: Word, g: Word, h: Word)
    requires ring.Length == 16 && |m| == 16
    requires RingHolds(ring[..], m, 16)
    requires Regs(a0, b0, c0, d0, e0, f0, g0, h0) == Rounds(start, m, 16)
    modifies ring
    ensures Regs(a, b, c, d, e, f, g, h) == Rounds(start, m, 64)
  {
    hide *;
    a, b, c, d, e, f, g, h := a0, b0, c0, d0, e0, f0, g0, h0;
    var j := 16;
    while j < 64
      invariant 16 <= j <= 64 && j % 8 == 0
      invariant RingHolds(ring[..], m, j)
      invariant Regs(a, b, c, d, e, f, g, h) == Rounds(start, m, j)
    {
      d, h := LaterRound(a, b, c, d, e, f, g, h, ring, m, j, start);
      c, g := LaterRound(h, a, b, c, d, e, f, g, ring, m, j + 1, start);
      b, f := LaterRound(g, h, a, b, c, d, e, f, ring, m, j + 2, start);
      a, e := LaterRound(f, g, h, a, b, c, d, e, ring, m, j + 3, start);
      h, d := LaterRound(e, f, g, h, a, b, c, d, ring, m, j + 4, start);
      g, c := LaterRound(d, e, f, g, h, a, b, c, ring, m, j + 5, start);
      f, b := LaterRound(c, d, e, f, g, h, a, b, ring, m, j + 6, start);
      e, a := LaterRound(b, c, d, e, f, g, h, a, ring, m, j + 7, start);
      j := j + 8;
    }
  }

  lemma BlockWordsAt(data: seq<byte>)
    requires |data| == 64
    ensures IsBlock(data, BlockWords(data))
  {
  }

  /** One application of the FIPS compression function, to a block of 64 bytes. */
  ghost predicate IsCompressed(state: seq<Word>, data: seq<byte>, next: seq<Word>) {
    |state| == |next| == 8 && |data| == 64 && RegsOf(next) == Compress(RegsOf(state), BlockWords(data))
  }

  /** sechsharm_sha256_transform: one block through the unrolled, renamed rounds is
      one application of the FIPS compression function. */
  method Transform(state: array<Word>, data: seq<byte>)
    requires state.Length == 8 && |data| == 64
    modifies state
    ensures IsCompressed(old(state[..]), data, state[..])
  {
    hide RegsOf, AddRegs, Rounds, Schedule, BlockWords, IsBlock, RingHolds;
    ghost var m := BlockWords(data);
    var ring := new Word[16];
    BlockWordsAt(data);
    var a, b, c, d, e, f, g, h := FirstRounds(state[..], ring, data, m);
    a, b, c, d, e, f, g, h := LaterRounds(a, b, c, d, e, f, g, h, ring, m, RegsOf(state[..]));
    AddToState(state, Regs(a, b, c, d, e, f, g, h));
  }

  method AddToState(state: array<Word>, r: Regs)
    requires state.Length == 8
    modifies state
    ensures RegsOf(state[..]) == AddRegs(old(RegsOf(state[..])), r)
  {
    hide Add;
    state[0] := Add(state[0], r.a);
    state[1] := Add(state[1], r.b);
    state[2] := Add(state[2], r.c);
    state[3] := Add(state[3], r.d);
    state[4] := Add(state[4], r.e);
    state[5] := Add(state[5], r.f);
    state[6] := Add(state[6], r.g);
    state[7] := Add(state[7], r.h);
  }

  // ---------- The context ----------

  const COUNTER_LIMIT := 0x1_0000_0000_0000_0000

  /** The 64-bit bit counter after n bytes, and after k bytes more. */
  function BitCount(n: nat): nat { 8 * n % COUNTER_LIMIT }
  function CountMore(counter: nat, k: nat): nat { (counter + 8 * k) % COUNTER_LIMIT }

  lemma CounterStep(n: nat, k: nat)
    ensures CountMore(BitCount(n), k) == BitCount(n + k)
  {
  }

  /** How much of the buffer is in use, from the low word of the bit counter. */
  function UsedSpace(counter: nat): nat { (counter % 0x1_0000_0000) / 8 % 64 }

  lemma AddMultiple(n: nat, k: nat)
    ensures (n + 64 * k) % 64 == n % 64
  {
  }

  lemma UsedSpaceIs(n: nat)
    ensures UsedSpace(BitCount(n)) == n % 64
  {
    var q, c := 8 * n / COUNTER_LIMIT, 8 * n % COUNTER_LIMIT;
    var p, low := c / 0x1_0000_0000, c % 0x1_0000_0000;
    var k := 0x80_0000_0000_0000 * q + 0x80_0000 * p;
    assert low == 8 * (n - 64 * k);
    AddMultiple(n - 64 * k, k);
  }

  /** The padded message, when the padding fits into the last block and when it
      needs a block of its own. */
  lemma PaddedBlocks(m: seq<byte>, whole: seq<byte>, waiting: seq<byte>)
    requires m == whole + waiting && |waiting| == |m| % 64
    ensures var length := Length64(BitCount(|m|));
            Padded(m) == if |waiting| <= 55 then whole + (waiting + [0x80] + Zeros(55 - |waiting|) + length)
                         else whole + (waiting + [0x80] + Zeros(63 - |waiting|)) + (Zeros(56) + length)
  {
    hide Length64;
    var used := |waiting|;
    if used > 55 {
      assert Zeros(119 - used) == Zeros(63 - used) + Zeros(56);
    }
  }

  /** iv is the hash value after the whole blocks in data. */
  ghost predicate HoldsHash(iv: seq<Word>, data: seq<byte>) {
    |iv| == 8 && |data| % 64 == 0 && RegsOf(iv) == HashBlocks(InitialHash(), data)
  }

  /** The bytes absorbed so far: iv covers those that fill whole blocks, and the
      buffer holds the others. */
  ghost predicate StandsFor(counter: nat, iv: seq<Word>, buffer: seq<byte>, absorbed: seq<byte>) {
    && counter == BitCount(|absorbed|)
    && |buffer| == 64
    && var used := |absorbed| % 64;
       HoldsHash(iv, absorbed[..|absorbed| - used]) && buffer[..used] == absorbed[|absorbed| - used..]
  }

  lemma StandsForWhole(counter: nat, iv: seq<Word>, buffer: seq<byte>, absorbed: seq<byte>)
    requires |absorbed| % 64 == 0 && |buffer| == 64
    ensures StandsFor(counter, iv, buffer, absorbed) <==> counter == BitCount(|absorbed|) && HoldsHash(iv, absorbed)
  {
    hide HoldsHash, BitCount;
    assert absorbed[..|absorbed|] == absorbed;
  }

  /** More bytes in the buffer, but no whole block yet. */
  lemma StandsForMore(counter: nat, iv: seq<Word>, buffer: seq<byte>, absorbed: seq<byte>, data: seq<byte>, after: seq<byte>)
    requires StandsFor(counter, iv, buffer, absorbed)
    requires |absorbed| % 64 + |data| < 64
    requires |after| == 64 && after[..|absorbed| % 64 + |data|] == buffer[..|absorbed| % 64] + data
    ensures StandsFor(CountMore(counter, |data|), iv, after, absorbed + data)
  {
    hide HoldsHash, BitCount, CountMore;
    CounterStep(|absorbed|, |data|);
    var used := |absorbed| % 64;
    assert |absorbed + data| % 64 == used + |data|;
    assert (absorbed + data)[..|absorbed| - used] == absorbed[..|absorbed| - used];
    assert (absorbed + data)[|absorbed| - used..] == absorbed[|absorbed| - used..] + data;
  }

  /** The buffer is completed: it is the next block. */
  lemma StandsForFull(counter: nat, iv: seq<Word>, buffer: seq<byte>, absorbed: seq<byte>, data: seq<byte>, full: seq<byte>)
    requires StandsFor(counter, iv, buffer, absorbed)
    requires |absorbed| % 64 + |data| == 64 && full == buffer[..|absorbed| % 64] + data
    ensures HoldsHash(iv, absorbed[..|absorbed| - |absorbed| % 64])
    ensures absorbed[..|absorbed| - |absorbed| % 64] + full == absorbed + data
    ensures |absorbed + data| % 64 == 0
    ensures CountMore(counter, |data|) == BitCount(|absorbed + data|)
  {
    hide HoldsHash, BitCount, CountMore;
    CounterStep(|absorbed|, |data|);
  }

  lemma StandsForUsed(counter: nat, iv: seq<Word>, buffer: seq<byte>, absorbed: seq<byte>)
    requires StandsFor(counter, iv, buffer, absorbed)
    ensures |buffer| == 64 && counter == BitCount(|absorbed|) && UsedSpace(counter) == |absorbed| % 64
    ensures HoldsHash(iv, absorbed[..|absorbed| - |absorbed| % 64])
    ensures absorbed == absorbed[..|absorbed| - |absorbed| % 64] + buffer[..|absorbed| % 64]
  {
    hide HoldsHash, UsedSpace, BitCount;
    UsedSpaceIs(|absorbed|);
  }

  lemma HashStarts(iv: seq<Word>)
    requires |iv| == 8 && forall i | 0 <= i < 8 :: iv[i] == H256(i)
    ensures HoldsHash(iv, [])
  {
  }

  lemma HashAdvances(iv: seq<Word>, next: seq<Word>, data: seq<byte>, block: seq<byte>)
    requires HoldsHash(iv, data) && IsCompressed(iv, block, next)
    ensures HoldsHash(next, data + block)
  {
    hide RegsOf, InitialHash, HashBlocks, Compress, BlockWords;
    HashNextBlock(InitialHash(), data, block);
  }

  /** struct __sechsh_ctx_s. The 64-bit bit count is kept in two 32-bit words; iv has
      eight more words that SHA-256 does not use; leftover_size is never read. */
  class Context {
    var counter: nat
    const iv: array<Word>
    const leftover: array<byte>
    ghost var absorbed: seq<byte>

    ghost predicate Shape() {
      iv.Length == 8 && leftover.Length == 64 && (iv as object) != leftover
    }

    /** The context stands for the bytes absorbed so far. */
    ghost predicate Valid()
      reads this, iv, leftover
    {
      Shape() && StandsFor(counter, iv[..], leftover[..], absorbed)
    }

    /** sechsharm_sha256_init */
    constructor ()
      ensures Valid() && absorbed == [] && fresh(iv) && fresh(leftover)
    {
      hide HoldsHash, H256;
      counter := 0;
      iv := new Word[8](i => H256(i));
      leftover := new byte[64](_ => 0);
      absorbed := [];
      new;
      HashStarts(iv[..]);
    }

    /** A full buffer goes into iv. */
    method FlushBuffer(ghost whole: seq<byte>)
      requires Shape() && HoldsHash(iv[..], whole)
      modifies iv
      ensures HoldsHash(iv[..], whole + leftover[..])
    {
      hide HoldsHash, IsCompressed;
      ghost var before := iv[..];
      Transform(iv, leftover[..]);
      HashAdvances(before, iv[..], whole, leftover[..]);
    }

    /** The branch of update that completes a partly filled buffer. */
    method TopUp(usedspace: nat, data: seq<byte>) returns (rest: seq<byte>)
      requires Valid() && usedspace == |absorbed| % 64 && usedspace + |data| >= 64
      modifies this, iv, leftover
      ensures Valid() && |absorbed| % 64 == 0
      ensures absorbed + rest == old(absorbed) + data
    {
      hide HoldsHash, StandsFor, CountMore, BitCount;
      var freespace := 64 - usedspace;
      ghost var buffer := leftover[..];
      CopyInto(leftover, usedspace, data[..freespace]);
      StandsForFull(counter, iv[..], buffer, absorbed, data[..freespace], leftover[..]);
      FlushBuffer(absorbed[..|absorbed| - usedspace]);
      counter := CountMore(counter, freespace);
      absorbed := absorbed + data[..freespace];
      StandsForWhole(counter, iv[..], leftover[..], absorbed);
      rest := data[freespace..];
    }

    /** The loop of update: whole blocks go straight from the caller's data into iv. */
    method TakeBlocks(data: seq<byte>) returns (rest: seq<byte>)
      requires Valid() && |absorbed| % 64 == 0
      modifies this, iv
      ensures Valid() && |absorbed| % 64 == 0 && |rest| < 64
      ensures absorbed + rest == old(absorbed) + data
    {
      hide HoldsHash, StandsFor, IsCompressed, CountMore, BitCount;
      rest := data;
      while |rest| >= 64
        invariant Valid() && |absorbed| % 64 == 0
        invariant absorbed + rest == old(absorbed) + data
      {
        ghost var before := iv[..];
        StandsForWhole(counter, iv[..], leftover[..], absorbed);
        Transform(iv, rest[..64]);
        HashAdvances(before, iv[..], absorbed, rest[..64]);
        CounterStep(|absorbed|, 64);
        counter := CountMore(counter, 64);
        absorbed := absorbed + rest[..64];
        StandsForWhole(counter, iv[..], leftover[..], absorbed);
        rest := rest[64..];
      }
    }

    /** The branches of update that leave bytes waiting in the buffer. */
    method Save(usedspace: nat, data: seq<byte>)
      requires Valid() && usedspace == |absorbed| % 64 && usedspace + |data| < 64
      modifies this, leftover
      ensures Valid() && absorbed == old(absorbed) + data
    {
      hide HoldsHash, StandsFor, CountMore, BitCount;
      ghost var buffer := leftover[..];
      CopyInto(leftover, usedspace, data);
      StandsForMore(counter, iv[..], buffer, absorbed, data, leftover[..]);
      counter := CountMore(counter, |data|);
      absorbed := absorbed + data;
    }

    /** sechsharm_sha256_update */
    method Update(data: seq<byte>)
      requires Valid()
      modifies this, iv, leftover
      ensures Valid() && absorbed == old(absorbed) + data
    {
      hide HoldsHash, UsedSpace;
      if |data| == 0 {
        return;
      }
      var rest := data;
      var usedspace := UsedSpace(counter);
      UsedSpaceIs(|absorbed|);
      if usedspace > 0 {
        if |rest| >= 64 - usedspace {
          rest := TopUp(usedspace, rest);
        } else {
          Save(usedspace, rest);
          return;
        }
      }
      rest := TakeBlocks(rest);
      if |rest| > 0 {
        Save(0, rest);
      }
    }

    /** The first part of pad: the end mark and zeros, up to the place of the length. They
        may need a block of their own. */
    method MarkEnd(used: nat, ghost whole: seq<byte>, ghost waiting: seq<byte>) returns (ghost blocks: seq<byte>)
      requires Shape() && HoldsHash(iv[..], whole) && used == |waiting| < 64 && leftover[..used] == waiting
      modifies iv, leftover
      ensures HoldsHash(iv[..], blocks)
      ensures used <= 55 ==> blocks == whole && leftover[..56] == waiting + [0x80] + Zeros(55 - used)
      ensures used > 55 ==> blocks == whole + (waiting + [0x80] + Zeros(63 - used)) && leftover[..56] == Zeros(56)
    {
      hide HoldsHash, Zeros;
      var usedspace := used;
      blocks := whole;
      if usedspace > 0 {
        leftover[usedspace] := 0x80;
        usedspace := usedspace + 1;
        if usedspace <= 56 {
          CopyInto(leftover, usedspace, Zeros(56 - usedspace));
        } else {
          if usedspace < 64 {
            CopyInto(leftover, usedspace, Zeros(64 - usedspace));
          }
          assert leftover[..] == waiting + [0x80] + Zeros(63 - used);
          FlushBuffer(whole);
          blocks := whole + leftover[..];
          CopyInto(leftover, 0, Zeros(56));
        }
      } else {
        CopyInto(leftover, 0, Zeros(56));
        leftover[0] := 0x80;
      }
    }

    /** sechsharm_sha256_pad */
    method Pad()
      requires Valid()
      modifies iv, leftover
      ensures HoldsHash(iv[..], Padded(absorbed))
    {
      hide HoldsHash, StandsFor, UsedSpace, BitCount, Padded, Length64, Zeros;
      ghost var waiting := leftover[..|absorbed| % 64];
      ghost var whole := absorbed[..|absorbed| - |absorbed| % 64];
      StandsForUsed(counter, iv[..], leftover[..], absorbed);
      PaddedBlocks(absorbed, whole, waiting);
      ghost var blocks := MarkEnd(UsedSpace(counter), whole, waiting);
      ghost var last := leftover[..56];
      CopyInto(leftover, 56, Length64(counter));
      assert leftover[..] == last + Length64(counter);
      assert blocks + leftover[..] == Padded(absorbed);
      FlushBuffer(blocks);
    }

    /** sechsharm_sha256_final. The transform after the digest is written changes iv,
        never the digest. */
    method Final(digest: array?<byte>)
      requires Valid()
      requires digest != null ==> digest.Length == 32 && digest != leftover && (digest as object) != iv
      modifies iv, leftover, digest
      ensures digest != null ==> digest[..] == Sha256(absorbed)
    {
      hide HoldsHash, StandsFor, Sha256, RegsOf, WordBytes, WordsBytes, Padded, IsCompressed;
      Pad();
      if digest != null {
        ghost var hash := iv[..];
        DigestIs(hash, absorbed);
        for i := 0 to 8
          invariant iv[..] == hash
          invariant digest[..4 * i] == WordsBytes(hash[..i])
        {
          CopyInto(digest, 4 * i, WordBytes(iv[i]));
          WordsBytesNext(hash, i);
        }
        assert hash[..8] == hash && digest[..32] == digest[..];
        Transform(iv, leftover[..]);
      }
    }
  }

  function WordsBytes(ws: seq<Word>): (s: seq<byte>)
    ensures |s| == 4 * |ws|
  {
    if ws == [] then [] else WordsBytes(ws[..|ws| - 1]) + WordBytes(ws[|ws| - 1])
  }

  lemma WordsBytesNext(ws: seq<Word>, i: nat)
    requires i < |ws|
    ensures WordsBytes(ws[..i + 1]) == WordsBytes(ws[..i]) + WordBytes(ws[i])
  {
    assert ws[..i + 1][..i] == ws[..i];
  }

  lemma WordsBytesAre(iv: seq<Word>)
    requires |iv| == 8
    ensures WordsBytes(iv) == RegsBytes(RegsOf(iv))
  {
    hide WordBytes, WordsBytes;
    WordsBytesNext(iv, 0);
    assert WordsBytes(iv[..1]) == WordBytes(iv[0]);
    WordsBytesNext(iv, 1);
    WordsBytesNext(iv, 2);
    WordsBytesNext(iv, 3);
    WordsBytesNext(iv, 4);
    WordsBytesNext(iv, 5);
    WordsBytesNext(iv, 6);
    WordsBytesNext(iv, 7);
    assert iv[..8] == iv;
  }

  lemma DigestIs(iv: seq<Word>, message: seq<byte>)
    requires HoldsHash(iv, Padded(message))
    ensures |iv| == 8 && WordsBytes(iv) == Sha256(message)
  {
    hide WordsBytes, HashBlocks, InitialHash, Padded, RegsBytes, RegsOf;
    WordsBytesAre(iv);
  }

  /** Init, any number of updates, final: the digest of all the pieces together,
      however the message was cut. */
  method Digest(pieces: seq<seq<byte>>) returns (digest: seq<byte>)
    ensures digest == Sha256(Concat(pieces))
  {
    hide Sha256, HoldsHash, StandsFor;
    var context := new Context();
    for i := 0 to |pieces|
      invariant context.Valid() && fresh(context) && fresh(context.iv) && fresh(context.leftover)
      invariant context.absorbed == Concat(pieces[..i])
    {
      context.Update(pieces[i]);
      assert pieces[..i + 1][..i] == pieces[..i];
    }
    assert pieces[..|pieces|] == pieces;
    var out := new byte[32];
    context.Final(out);
    digest := out[..];
  }
}
