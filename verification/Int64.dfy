/** 64-bit arithmetic on two 32-bit halves, external/putty/int64.c, for an unsigned long of
    32 bits and for one of 64. */
module Int64 {
  import opened Arith

  const WORD: nat := 0x1_0000_0000
  const TWO64: nat := 0x1_0000_0000_0000_0000

  /** How many bits an unsigned long has. */
  datatype Long = Long32 | Long64

  /** The uint64 of the source; valid when both halves are halves. */
  datatype U64 = U64(hi: nat, lo: nat)
  {
    predicate Valid() { hi < WORD && lo < WORD }

    function Value(): nat { hi * WORD + lo }
  }

  /** Both halves are determined by the value. */
  lemma ValueIs(x: U64, hi: nat, lo: nat)
    requires x.Valid() && lo < WORD && x.Value() == hi * WORD + lo
    ensures x == U64(hi, lo)
  {
  }

  // ---------- Bits ----------

  /** a | b */
  function Or(a: nat, b: nat): nat {
    if a == 0 && b == 0 then 0
    else (if a % 2 == 1 || b % 2 == 1 then 1 else 0) + 2 * Or(a / 2, b / 2)
  }

  /** a ^ b */
  function Xor(a: nat, b: nat): nat {
    if a == 0 && b == 0 then 0
    else (a + b) % 2 + 2 * Xor(a / 2, b / 2)
  }

  lemma {:induction false} OrZero(a: nat)
    ensures Or(a, 0) == a && Or(0, a) == a
  {
    if a > 0 { OrZero(a / 2); }
  }

  lemma OrEven(a: nat, h: nat)
    ensures Or(a, 2 * h) == a % 2 + 2 * Or(a / 2, h) && Or(2 * h, a) == a % 2 + 2 * Or(h, a / 2)
  {
    assert 2 * h / 2 == h && 2 * h % 2 == 0;
  }

  /** Flipping all of k bits. */
  lemma {:induction false} XorOnes(a: nat, k: nat)
    requires a < Pow2(k)
    ensures Xor(a, Pow2(k) - 1) == Pow2(k) - 1 - a
    decreases k
  {
    if k > 0 {
      XorOnes(a / 2, k - 1);
      var p := Pow2(k - 1);
      assert (2 * p - 1) / 2 == p - 1 && (2 * p - 1) % 2 == 1;
    }
  }

  lemma Pow2Of32()
    ensures Pow2(32) == WORD
  {
    assert Pow2(4) == 16;
    Pow2Add(4, 4);
    Pow2Add(8, 8);
    Pow2Add(16, 16);
    hide Pow2;
  }

  /** n & 0xFFFFFFFF */
  function Low(n: int): (r: nat)
    ensures r < WORD
  {
    n % WORD
  }

  lemma LowIs(n: int)
    ensures 0 <= n < WORD ==> Low(n) == n
    ensures WORD <= n < 2 * WORD ==> Low(n) == n - WORD
    ensures n < 0 && n + WORD >= 0 ==> Low(n) == n + WORD
  {
  }

  /** A number modulo 2 to the 64. */
  function Mod64(n: int): (r: nat)
    ensures r < TWO64
  {
    n % TWO64
  }

  lemma Mod64Is(n: int)
    ensures 0 <= n < TWO64 ==> Mod64(n) == n
    ensures TWO64 <= n < 2 * TWO64 ==> Mod64(n) == n - TWO64
    ensures n < 0 && n + TWO64 >= 0 ==> Mod64(n) == n + TWO64
  {
  }

  // ---------- Addition, subtraction, comparison ----------

  /** What is left of a number in an unsigned long. */
  function Reduced(n: nat, long: Long): nat {
    if long.Long32? then Low(n) else Mod64(n)
  }

  /** uint64_add; the high half is not masked and wraps as an unsigned long does. */
  function Add(x: U64, y: U64, long: Long): (r: U64)
    ensures r.lo < WORD && (long.Long32? ==> r.hi < WORD)
  {
    var lo := Low(x.lo + y.lo);
    U64(Reduced(x.hi + y.hi + if lo < y.lo then 1 else 0, long), lo)
  }

  /** The sum with 64 bits, and modulo 2 to the 64 with 32. */
  lemma AddIs(x: U64, y: U64, long: Long)
    requires x.lo < WORD && y.lo < WORD && x.hi + y.hi + 1 < if long.Long32? then 2 * WORD else TWO64
    ensures long.Long64? ==> Add(x, y, long).Value() == x.Value() + y.Value()
    ensures long.Long32? ==> Add(x, y, long).Value() == Mod64(x.Value() + y.Value())
  {
    hide Low, Mod64;
    LowIs(x.lo + y.lo);
    LowIs(x.hi + y.hi);
    LowIs(x.hi + y.hi + 1);
    Mod64Is(x.hi + y.hi);
    Mod64Is(x.hi + y.hi + 1);
    Mod64Is(x.Value() + y.Value());
  }

  /** A sum of two numbers is their sum modulo 2 to the 64, with both halves in order, exactly
      when an unsigned long has 32 bits or the sum fits. */
  lemma AddExact(x: U64, y: U64, long: Long)
    requires x.Valid() && y.Valid()
    ensures Mod64(Add(x, y, long).Value()) == Mod64(x.Value() + y.Value())
    ensures Add(x, y, long).Valid() && Add(x, y, long).Value() == Mod64(x.Value() + y.Value())
            <==> long.Long32? || x.Value() + y.Value() < TWO64
  {
    hide Add, Mod64;
    AddIs(x, y, long);
    Mod64Is(x.Value() + y.Value());
    Mod64Is(Add(x, y, long).Value());
    ValidIs(Add(x, y, long));
  }

  lemma ValidIs(x: U64)
    ensures x.Valid() ==> x.Value() < TWO64
    ensures x.lo < WORD && x.Value() < TWO64 ==> x.Valid()
  {
  }

  /** uint64_add32 */
  function Add32(x: U64, y: nat, long: Long): (r: U64)
    ensures r.lo < WORD && (long.Long32? ==> r.hi < WORD)
  {
    Add(x, U64(0, y), long)
  }

  /** uint64_subtract */
  function Subtract(x: U64, y: U64): (r: U64)
    ensures r.Valid()
  {
    var lo := Low(x.lo - y.lo);
    U64(Low(x.hi - y.hi - if lo > Xor(y.lo, 0xFFFF_FFFF) then 1 else 0), lo)
  }

  lemma SubtractIs(x: U64, y: U64)
    requires x.Valid() && y.Valid()
    ensures Subtract(x, y).Value() == Mod64(x.Value() - y.Value())
  {
    Pow2Of32();
    hide Low, Mod64, Xor, Pow2;
    XorOnes(y.lo, 32);
    LowIs(x.lo - y.lo);
    LowIs(x.hi - y.hi);
    LowIs(x.hi - y.hi - 1);
    Mod64Is(x.Value() - y.Value());
  }

  /** Whether or not the sum fits. */
  lemma SubtractUndoesAdd(x: U64, y: U64, long: Long)
    requires x.Valid() && y.Valid()
    ensures Subtract(Add(x, y, long), y) == x
  {
    hide Add, Subtract, Mod64;
    var s := Add(x, y, long);
    AddIs(x, y, long);
    SubtractMasked(s, y);
    var z := U64(Low(s.hi), s.lo);
    SubtractIs(z, y);
    MaskedValue(s);
    Mod64Is(x.Value() + y.Value());
    Mod64Is(s.Value());
    Mod64Is(z.Value() - y.Value());
    ValidIs(x);
    ValidIs(y);
    ValueIs(Subtract(z, y), x.hi, x.lo);
  }

  /** The masks make up for a high half that is too large. */
  lemma SubtractMasked(x: U64, y: U64)
    ensures Subtract(x, y) == Subtract(U64(Low(x.hi), x.lo), y)
  {
    hide Xor;
    LowMinus(x.hi, y.hi);
    LowMinus(x.hi, y.hi + 1);
    hide Low;
  }

  lemma LowMinus(a: nat, b: nat)
    ensures Low(Low(a) - b) == Low(a - b)
  {
  }

  lemma MaskedValue(x: U64)
    requires x.lo < WORD
    ensures var z := U64(Low(x.hi), x.lo); z.Valid() && z.Value() == Mod64(x.Value())
    ensures exists q: nat :: x.Value() == Scale64(q) + Mod64(x.Value())
  {
    var q := x.hi / WORD;
    assert x.hi == q * WORD + Low(x.hi);
    assert x.Value() == q * TWO64 + Low(x.hi) * WORD + x.lo;
    Mod64Of(q, Low(x.hi), x.lo);
    assert x.Value() == Scale64(q) + Mod64(x.Value());
  }

  function Scale64(q: nat): nat { q * TWO64 }

  /** uint64_compare */
  function Compare(x: U64, y: U64): (c: int)
    requires x.lo < WORD && y.lo < WORD
    ensures c == if x.Value() < y.Value() then -1 else if x.Value() > y.Value() then 1 else 0
  {
    if x.hi != y.hi then (if x.hi < y.hi then -1 else 1)
    else if x.lo != y.lo then (if x.lo < y.lo then -1 else 1)
    else 0
  }

  // ---------- Shifts ----------

  function Quotient(n: nat, d: nat): nat
    requires d > 0
  {
    n / d
  }

  function Remainder(n: nat, d: nat): nat
    requires d > 0
  {
    n % d
  }

  function Shl(n: nat, k: nat): nat { n * Pow2(k) }

  function Shr(n: nat, k: nat): nat { Quotient(n, Pow2(k)) }

  function Rem(n: nat, k: nat): nat { Remainder(n, Pow2(k)) }

  /** uint64_shift_right */
  function ShiftRight(x: U64, shift: nat): U64
    requires 0 < shift < 64
  {
    if shift < 32 then U64(Shr(x.hi, shift), Or(Shr(x.lo, shift), Low(Shl(x.hi, 32 - shift))))
    else U64(0, Shr(x.hi, shift - 32))
  }

  /** uint64_shift_left */
  function ShiftLeft(x: U64, shift: nat): U64
    requires 0 < shift < 64
  {
    if shift < 32 then U64(Or(Low(Shl(x.hi, shift)), Shr(x.lo, 32 - shift)), Low(Shl(x.lo, shift)))
    else U64(Low(Shl(x.lo, shift - 32)), 0)
  }

  /** n in terms of a quotient and a remainder, and nothing else known of them. */
  lemma Split(n: nat, k: nat)
    ensures n == Shl(Shr(n, k), k) + Rem(n, k) && Rem(n, k) < Pow2(k)
  {
  }

  lemma ShrIs(n: nat, k: nat, q: nat, r: nat)
    requires n == Shl(q, k) + r && r < Pow2(k)
    ensures Shr(n, k) == q && Rem(n, k) == r
  {
    hide Pow2;
    DivModUnique(n, Pow2(k), q, r);
  }

  lemma ShlAdd(a: nat, b: nat, k: nat)
    ensures Shl(a + b, k) == Shl(a, k) + Shl(b, k)
  {
  }

  lemma ShlShl(n: nat, j: nat, k: nat)
    ensures Shl(Shl(n, j), k) == Shl(n, j + k)
  {
    Pow2Add(j, k);
    hide Pow2;
    assert n * Pow2(j) * Pow2(k) == n * (Pow2(j) * Pow2(k));
  }

  lemma ShlWord(n: nat)
    ensures Shl(n, 32) == n * WORD
  {
    Pow2Of32();
    hide Pow2;
  }

  lemma ShlLess(a: nat, b: nat, k: nat)
    requires a < b
    ensures Shl(a, k) + Pow2(k) <= Shl(b, k)
  {
  }

  /** The low word of n shifted left: what is left of n below bit 32 - k. */
  lemma LowOfShl(n: nat, k: nat)
    requires k <= 32 && n < WORD
    ensures Shl(n, k) == Shr(n, 32 - k) * WORD + Shl(Rem(n, 32 - k), k)
    ensures Low(Shl(n, k)) == Shl(Rem(n, 32 - k), k) < WORD
  {
    var j := 32 - k;
    Split(n, j);
    ShlAdd(Shl(Shr(n, j), j), Rem(n, j), k);
    ShlShl(Shr(n, j), j, k);
    ShlWord(Shr(n, j));
    ShlLess(Rem(n, j), Pow2(j), k);
    Pow2Product(j, k);
    hide Pow2, Shl, Shr, Rem;
    LowOf(Shr(n, j), Shl(Rem(n, j), k));
  }

  lemma Pow2Product(j: nat, k: nat)
    requires j + k == 32
    ensures Shl(Pow2(j), k) == WORD && Pow2(k) > 0
  {
    Pow2Add(j, k);
    Pow2Of32();
    hide Pow2;
  }

  lemma LowOf(q: nat, r: nat)
    requires r < WORD
    ensures Low(q * WORD + r) == r
  {
  }

  lemma ShlOnce(n: nat, k: nat)
    ensures Shl(n, 0) == n
    ensures k > 0 ==> Shl(n, k) == 2 * Shl(n, k - 1) && Pow2(k) == 2 * Pow2(k - 1)
  {
  }

  /** Bits that do not overlap. */
  lemma {:induction false} OrShl(a: nat, b: nat, k: nat)
    requires a < Pow2(k)
    ensures Or(a, Shl(b, k)) == a + Shl(b, k) && Or(Shl(b, k), a) == a + Shl(b, k)
    decreases k
  {
    ShlOnce(b, k);
    if k == 0 {
      OrZero(b);
    } else {
      hide Or, Shl, Pow2;
      OrShl(a / 2, b, k - 1);
      OrEven(a, Shl(b, k - 1));
    }
  }

  lemma ShrSmall(n: nat, k: nat)
    requires k <= 32 && n < WORD
    ensures Shr(n, k) < Pow2(32 - k)
  {
    Split(n, k);
    Pow2Product(32 - k, k);
    if Shr(n, k) >= Pow2(32 - k) {
      if Shr(n, k) > Pow2(32 - k) { ShlLess(Pow2(32 - k), Shr(n, k), k); }
      hide Pow2, Shl, Shr, Rem;
      assert false;
    }
  }

  /** A right shift divides. */
  lemma ShiftRightIs(x: U64, shift: nat)
    requires x.Valid() && 0 < shift < 64
    ensures ShiftRight(x, shift).Valid() && ShiftRight(x, shift).Value() == Shr(x.Value(), shift)
  {
    hide Pow2, Shl, Shr, Rem, Low, Or;
    if shift < 32 {
      var j := 32 - shift;
      LowOfShl(x.hi, j);
      Split(x.lo, shift);
      ShrSmall(x.lo, shift);
      OrShl(Shr(x.lo, shift), Rem(x.hi, shift), j);
      ShrLess(x.hi, shift);
      // hi * WORD is hi shifted by j and then by shift
      ShlWord(x.hi);
      ShlShl(x.hi, j, shift);
      ShlAdd(Shl(x.hi, j), Shr(x.lo, shift), shift);
      ShrIs(x.Value(), shift, Shl(x.hi, j) + Shr(x.lo, shift), Rem(x.lo, shift));
      RightFits(x, shift);
    } else {
      var k := shift - 32;
      Split(x.hi, k);
      ShrLess(x.hi, k);
      WordTimes(Shr(x.hi, k), Rem(x.hi, k), k, x.lo);
      ShrIs(x.Value(), shift, Shr(x.hi, k), Rem(x.hi, k) * WORD + x.lo);
    }
  }

  lemma ShrLess(n: nat, k: nat)
    ensures Shr(n, k) <= n
  {
    Split(n, k);
    hide Pow2;
    var q := Shr(n, k);
    MulMonotone(1, Pow2(k), q);
    assert q * Pow2(k) == Pow2(k) * q;
  }

  /** The two parts of the low word do not reach beyond it. */
  lemma RightFits(x: U64, k: nat)
    requires x.Valid() && 0 < k < 32
    ensures Shr(x.lo, k) + Shl(Rem(x.hi, k), 32 - k) < WORD
  {
    ShrSmall(x.lo, k);
    Split(x.hi, k);
    ShlLess(Rem(x.hi, k), Pow2(k), 32 - k);
    Pow2Product(k, 32 - k);
    hide Pow2, Shl, Shr, Rem;
  }

  /** (q * 2^k + r) * 2^32 + lo, split at bit k + 32. */
  lemma WordTimes(q: nat, r: nat, k: nat, lo: nat)
    requires r < Pow2(k) && lo < WORD
    ensures (Shl(q, k) + r) * WORD + lo == Shl(q, k + 32) + (r * WORD + lo)
    ensures r * WORD + lo < Pow2(k + 32)
  {
    Pow2Add(k, 32);
    Pow2Of32();
    ShlShl(q, k, 32);
    ShlWord(Shl(q, k));
    hide Pow2, Shl;
  }

  /** A left shift multiplies, modulo 2 to the 64, whatever the high half. */
  lemma ShiftLeftIs(x: U64, shift: nat)
    requires x.lo < WORD && 0 < shift < 64
    ensures ShiftLeft(x, shift).Valid() && ShiftLeft(x, shift).Value() == Mod64(Shl(x.Value(), shift))
  {
    hide Pow2, Shl, ShiftLeft, Low, Mod64;
    var z := U64(Low(x.hi), x.lo);
    MaskedValue(x);
    var q: nat :| x.Value() == Scale64(q) + Mod64(x.Value());
    ShiftLeftMasked(x, shift);
    ShiftLeftValid(z, shift);
    ShlAdd(Scale64(q), z.Value(), shift);
    ShlScale(q, shift);
    Mod64More(Shl(q, shift), Shl(z.Value(), shift));
  }

  lemma ShlScale(q: nat, k: nat)
    ensures Shl(Scale64(q), k) == Scale64(Shl(q, k))
  {
    hide Pow2;
    assert q * TWO64 * Pow2(k) == q * Pow2(k) * TWO64;
  }

  lemma Mod64More(q: nat, n: nat)
    ensures Mod64(Scale64(q) + n) == Mod64(n)
  {
  }

  lemma ShiftLeftMasked(x: U64, shift: nat)
    requires 0 < shift < 64
    ensures ShiftLeft(x, shift) == ShiftLeft(U64(Low(x.hi), x.lo), shift)
  {
    hide Shl, Shr, Low, Or;
    LowOfMasked(x.hi, shift);
  }

  lemma LowOfMasked(n: nat, k: nat)
    ensures Low(Shl(n, k)) == Low(Shl(Low(n), k))
  {
    var q := n / WORD;
    assert n == q * WORD + Low(n);
    ShlAdd(q * WORD, Low(n), k);
    ShlWordOut(q, k);
    hide Shl;
    LowMore(Shl(q, k), Shl(Low(n), k));
  }

  lemma ShlWordOut(q: nat, k: nat)
    ensures Shl(q * WORD, k) == Shl(q, k) * WORD
  {
    hide Pow2;
    assert q * WORD * Pow2(k) == q * Pow2(k) * WORD;
  }

  lemma LowMore(q: nat, n: nat)
    ensures Low(q * WORD + n) == Low(n)
  {
  }

  lemma ShiftLeftValid(x: U64, shift: nat)
    requires x.Valid() && 0 < shift < 64
    ensures ShiftLeft(x, shift).Valid() && ShiftLeft(x, shift).Value() == Mod64(Shl(x.Value(), shift))
  {
    hide Pow2, Shl, Shr, Rem, Low, Or, Mod64;
    ShlWord(x.hi);
    ShlAdd(x.hi * WORD, x.lo, shift);
    if shift < 32 {
      var j := 32 - shift;
      LowOfShl(x.hi, shift);
      LowOfShl(x.lo, shift);
      ShrSmall(x.lo, j);
      OrShl(Shr(x.lo, j), Rem(x.hi, j), shift);
      LeftFits(x, shift);
      ShlShl(x.hi, 32, shift);
      ShlShl(x.hi, shift, 32);
      ShlWord(Shl(x.hi, shift));
      Mod64Of(Shr(x.hi, j), Shr(x.lo, j) + Shl(Rem(x.hi, j), shift), Shl(Rem(x.lo, j), shift));
    } else {
      var k := shift - 32;
      LowOfShl(x.lo, k);
      ShlShl(x.hi, 32, shift);
      ShlShl(x.hi, k, 64);
      ShlShl(x.lo, k, 32);
      ShlWord(Shl(x.lo, k));
      ShlTwice(Shl(x.hi, k));
      Mod64Of(Shl(x.hi, k) + Shr(x.lo, 32 - k), Shl(Rem(x.lo, 32 - k), k), 0);
    }
  }

  lemma LeftFits(x: U64, k: nat)
    requires x.Valid() && 0 < k < 32
    ensures Shr(x.lo, 32 - k) + Shl(Rem(x.hi, 32 - k), k) < WORD
  {
    ShrSmall(x.lo, 32 - k);
    Split(x.hi, 32 - k);
    ShlLess(Rem(x.hi, 32 - k), Pow2(32 - k), k);
    Pow2Product(32 - k, k);
    hide Pow2, Shl, Shr, Rem;
  }

  lemma ShlTwice(n: nat)
    ensures Shl(n, 64) == n * TWO64
  {
    ShlShl(n, 32, 32);
    ShlWord(n);
    ShlWord(n * WORD);
    hide Shl;
  }

  lemma Mod64Of(q: nat, hi: nat, lo: nat)
    requires hi < WORD && lo < WORD
    ensures Mod64(q * TWO64 + hi * WORD + lo) == hi * WORD + lo
  {
  }

  // ---------- Decimal ----------

  /** uint64_div10: the quotient and the remainder. */
  function Div10(x: U64): (r: (U64, nat)) {
    var r2 := x.hi % 10;
    var rem := x.lo % 10 + r2 * 6;
    (U64(x.hi / 10, x.lo / 10 + r2 * 429496729 + rem / 10), rem % 10)
  }

  lemma Div10Is(x: U64)
    requires x.Valid()
    ensures var (y, d) := Div10(x); y.Valid() && d < 10 && x.Value() == 10 * y.Value() + d
  {
  }

  function DigitChar(d: nat): char
    requires d < 10
  {
    ('0' as int + d) as char
  }

  predicate IsDigit(c: char) { '0' <= c <= '9' }

  function DigitOf(c: char): (d: nat)
    requires IsDigit(c)
    ensures d < 10
  {
    c as int - '0' as int
  }

  /** A number in decimal, without leading zeros. */
  function Decimal(n: nat): string {
    if n < 10 then [DigitChar(n)] else Decimal(n / 10) + [DigitChar(n % 10)]
  }

  predicate AllDigits(s: string) { forall i | 0 <= i < |s| :: IsDigit(s[i]) }

  /** The number that digits stand for. */
  function Number(s: string): nat
    requires AllDigits(s)
  {
    if s == "" then 0 else 10 * Number(s[..|s| - 1]) + DigitOf(s[|s| - 1])
  }

  lemma {:induction false} NumberOfDecimal(n: nat)
    ensures AllDigits(Decimal(n)) && Number(Decimal(n)) == n
  {
    if n < 10 {
      assert Decimal(n)[..0] == "";
    } else {
      NumberOfDecimal(n / 10);
      var s := Decimal(n);
      assert s[..|s| - 1] == Decimal(n / 10);
    }
  }

  function Pow10(n: nat): nat {
    if n == 0 then 1 else 10 * Pow10(n - 1)
  }

  lemma Pow10Of20()
    ensures Pow10(20) > TWO64
  {
    assert Pow10(5) == 10_0000;
    assert Pow10(10) == 10_0000 * Pow10(5);
    assert Pow10(15) == 10_0000 * Pow10(10);
    assert Pow10(20) == 10_0000 * Pow10(15);
  }

  /** uint64_decimal. The assertion is the one of the source: twenty digits are enough. */
  method ToDecimal(x: U64) returns (s: string)
    requires x.Valid()
    ensures s == Decimal(x.Value())
  {
    hide Div10, Pow10;
    var buf := new char[20];
    var start := 20;
    var y, more := x, true;
    Pow10Of20();
    Pow10Zero();
    while more
      invariant 0 <= start <= 20 && y.Valid() && y.Value() < Pow10(start)
      invariant more ==> Decimal(x.Value()) == Decimal(y.Value()) + buf[start..] && (start == 20 || y.Value() > 0)
      invariant !more ==> Decimal(x.Value()) == buf[start..]
      decreases more, y.Value()
    {
      Div10Is(y);
      Pow10Step(start, y.Value());
      var (q, d) := Div10(y);
      DecimalStep(y.Value(), q.Value(), d);
      assert start > 0;
      ghost var tail := buf[start..];
      start := start - 1;
      buf[start] := DigitChar(d);
      assert buf[start..] == [DigitChar(d)] + tail;
      y := q;
      more := y.hi != 0 || y.lo != 0;
    }
    s := buf[start..];
  }

  lemma Pow10Zero()
    ensures Pow10(0) == 1
  {
  }

  lemma Pow10Step(k: nat, v: nat)
    requires v < Pow10(k)
    ensures k > 0 ==> v / 10 < Pow10(k - 1)
    ensures v > 0 ==> k > 0
  {
  }

  lemma DecimalStep(v: nat, q: nat, d: nat)
    requires d < 10 && v == 10 * q + d
    ensures q == v / 10
    ensures q > 0 ==> Decimal(v) == Decimal(q) + [DigitChar(d)]
    ensures q == 0 ==> Decimal(v) == [DigitChar(d)]
  {
  }

  /** How many digits a string starts with. */
  function Leading(s: string): (n: nat)
    ensures n <= |s| && AllDigits(s[..n]) && (n < |s| ==> !IsDigit(s[n]))
  {
    if s == "" || !IsDigit(s[0]) then 0
    else
      var n := Leading(s[1..]);
      assert s[..n + 1] == [s[0]] + s[1..][..n];
      n + 1
  }

  lemma Mod64Add(a: nat, b: nat)
    ensures Mod64(Mod64(a) + b) == Mod64(a + b)
  {
  }

  /** A factor may be applied before or after the reduction. */
  lemma Mod64Times(a: nat, c: nat)
    ensures Mod64(c * a) == Mod64(c * Mod64(a))
  {
    var q := a / TWO64;
    assert a == Scale64(q) + Mod64(a);
    assert c * (q * TWO64 + Mod64(a)) == c * q * TWO64 + c * Mod64(a);
    hide Mod64;
    Mod64More(c * q, c * Mod64(a));
  }

  lemma ShlSmall(n: nat)
    ensures Shl(n, 3) == 8 * n && Shl(n, 1) == 2 * n
  {
  }

  /** One turn of uint64_from_decimal multiplies by ten and adds a digit. */
  function TimesTen(x: U64, d: nat, long: Long): U64 {
    Add32(Add(ShiftLeft(x, 3), ShiftLeft(x, 1), long), d, long)
  }

  /** The value of x is n, as far as an unsigned long lets it: modulo 2 to the 64, reduced
      with 32 bits, and n itself if that fits. */
  predicate Stands(x: U64, n: nat, long: Long) {
    && x.lo < WORD && Mod64(x.Value()) == Mod64(n)
    && (long.Long32? || n < TWO64 ==> x.Valid())
  }

  lemma TimesTenIs(x: U64, n: nat, d: nat, long: Long)
    requires Stands(x, n, long) && d < 10
    ensures Stands(TimesTen(x, d, long), 10 * n + d, long)
    ensures long.Long64? ==> TimesTen(x, d, long).Value() == Mod64(8 * n) + Mod64(2 * n) + d
  {
    hide ShiftLeft, Shl, Mod64, Add;
    var v := x.Value();
    var a, b := ShiftLeft(x, 3), ShiftLeft(x, 1);
    ShiftLeftIs(x, 3);
    ShiftLeftIs(x, 1);
    ShlSmall(v);
    Mod64Scaled(v, n);
    ValidIs(a);
    ValidIs(b);
    AddIs(a, b, long);
    var s := Add(a, b, long);
    AddIs(s, U64(0, d), long);
    var t := TimesTen(x, d, long);
    Mod64Sum(8 * n, 2 * n, d);
    Mod64Is(8 * n);
    Mod64Is(2 * n);
    ValidIs(t);
    if long.Long32? {
      Mod64Add(Mod64(8 * n) + Mod64(2 * n), d);
      Mod64Is(t.Value());
    }
  }

  lemma Mod64Scaled(v: nat, n: nat)
    requires Mod64(v) == Mod64(n)
    ensures Mod64(8 * v) == Mod64(8 * n) && Mod64(2 * v) == Mod64(2 * n)
  {
    hide Mod64;
    Mod64Times(v, 8);
    Mod64Times(n, 8);
    Mod64Times(v, 2);
    Mod64Times(n, 2);
  }

  lemma Mod64Sum(a: nat, b: nat, d: nat)
    ensures Mod64(Mod64(a) + Mod64(b) + d) == Mod64(a + b + d)
  {
  }

  /** uint64_from_decimal: the number of the leading digits if it fits, and always the same
      modulo 2 to the 64; reduced with 32 bits, and with 64 bits not past the last digit. */
  method FromDecimal(str: string, long: Long) returns (ret: U64)
    ensures var digits := str[..Leading(str)];
            && Stands(ret, Number(digits), long)
            && (Number(digits) < TWO64 ==> ret.Value() == Number(digits))
            && (long.Long32? ==> ret.Value() == Mod64(Number(digits)))
            && (long.Long64? && digits != "" ==>
                  var n := Number(digits[..|digits| - 1]);
                  ret.Value() == Mod64(8 * n) + Mod64(2 * n) + DigitOf(digits[|digits| - 1]))
  {
    hide Mod64, ShiftLeft, Add32, Add, Stands, TimesTen;
    ret := U64(0, 0);
    StandsZero(long);
    var k := 0;
    while k < |str| && IsDigit(str[k])
      invariant k <= |str| && AllDigits(str[..k]) && Stands(ret, Number(str[..k]), long)
      invariant long.Long64? && k > 0 ==>
        AllDigits(str[..k - 1]) && IsDigit(str[k - 1])
        && ret.Value() == Mod64(8 * Number(str[..k - 1])) + Mod64(2 * Number(str[..k - 1])) + DigitOf(str[k - 1])
    {
      TimesTenIs(ret, Number(str[..k]), DigitOf(str[k]), long);
      TimesTenSteps(ret, DigitOf(str[k]), long);
      assert str[..k + 1][..k] == str[..k];
      ret := Add(ShiftLeft(ret, 3), ShiftLeft(ret, 1), long);
      ret := Add32(ret, DigitOf(str[k]), long);
      k := k + 1;
    }
    LeadingIs(str, k);
    StandsValue(ret, Number(str[..k]), long);
    if k > 0 { assert str[..k][..k - 1] == str[..k - 1]; }
  }

  lemma StandsZero(long: Long)
    ensures Stands(U64(0, 0), 0, long)
  {
  }

  lemma TimesTenSteps(x: U64, d: nat, long: Long)
    ensures TimesTen(x, d, long) == Add32(Add(ShiftLeft(x, 3), ShiftLeft(x, 1), long), d, long)
  {
  }

  lemma StandsValue(x: U64, n: nat, long: Long)
    requires Stands(x, n, long)
    ensures n < TWO64 ==> x.Value() == n
    ensures long.Long32? ==> x.Value() == Mod64(n)
  {
    ValidIs(x);
    Mod64Is(x.Value());
    Mod64Is(n);
    hide Mod64;
  }

  lemma LeadingIs(s: string, k: nat)
    requires k <= |s| && AllDigits(s[..k]) && (k < |s| ==> !IsDigit(s[k]))
    ensures Leading(s) == k
  {
    hide Leading;
    var n := Leading(s);
  }

  /** Printing and reading back gives the number again, whatever comes behind. */
  method PrintAndRead(x: U64, behind: string, long: Long) returns (y: U64)
    requires x.Valid() && (behind != "" ==> !IsDigit(behind[0]))
    ensures y == x
  {
    hide Decimal, Number, Mod64;
    var s := ToDecimal(x);
    y := FromDecimal(s + behind, long);
    NumberOfDecimal(x.Value());
    assert (s + behind)[..|s|] == s;
    LeadingIs(s + behind, |s|);
    ValidIs(x);
    StandsValid(y, x.Value(), long);
    ValueIs(y, x.hi, x.lo);
  }

  lemma StandsValid(x: U64, n: nat, long: Long)
    requires Stands(x, n, long) && n < TWO64
    ensures x.Valid()
  {
  }
}
