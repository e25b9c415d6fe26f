/** ssh.com private keys in external/putty/import.c: integers with their length in
    bits, and the way there and back from PuTTY's key blobs. */
module SshCom {
  import opened Arith
  import opened Ber
  import opened Bytes

  // ---------- Values and bits ----------

  /** The value of an integer, most significant byte first. */
  function Value(x: seq<byte>): nat {
    Number(x, Eight)
  }

  lemma Pow2Of8()
    ensures Pow2(8) == 256
  {
  }

  lemma {:induction false} ValueBound(x: seq<byte>)
    ensures Value(x) < Pow2(8 * |x|)
  {
    if x != [] {
      var n := |x| - 1;
      ValueBound(x[..n]);
      Pow2Add(8 * n, 8);
      Pow2Of8();
    }
  }

  lemma {:induction false} ValueFront(b: byte, x: seq<byte>)
    ensures Value([b] + x) == b * Pow2(8 * |x|) + Value(x)
  {
    if x == [] {
      assert [b][..0] == [];
      assert [b] + x == [b];
    } else {
      var n := |x| - 1;
      ValueFront(b, x[..n]);
      assert ([b] + x)[..|x|] == [b] + x[..n];
      Pow2Add(8 * n, 8);
      Pow2Of8();
      assert b * (Pow2(8 * n) * 256) == 256 * (b * Pow2(8 * n));
    }
  }

  /** v has exactly n bits. */
  predicate HasBits(v: nat, n: nat) {
    v < Pow2(n) && (n > 0 ==> Pow2(n - 1) <= v)
  }

  /** x & (1 << k), for a byte. */
  predicate Bit(x: byte, k: nat)
    requires k < 8
  {
    (if k == 0 then x else if k == 1 then x / 2 else if k == 2 then x / 4 else if k == 3 then x / 8
     else if k == 4 then x / 16 else if k == 5 then x / 32 else if k == 6 then x / 64 else x / 128) % 2 == 1
  }

  function TwoTo(k: nat): (p: nat)
    requires k <= 8
    ensures p == Pow2(k)
  {
    Pow2Small();
    if k == 0 then 1 else if k == 1 then 2 else if k == 2 then 4 else if k == 3 then 8
    else if k == 4 then 16 else if k == 5 then 32 else if k == 6 then 64 else if k == 7 then 128 else 256
  }

  lemma Pow2Small()
    ensures Pow2(0) == 1 && Pow2(1) == 2 && Pow2(2) == 4 && Pow2(3) == 8 && Pow2(4) == 16
    ensures Pow2(5) == 32 && Pow2(6) == 64 && Pow2(7) == 128 && Pow2(8) == 256
  {
  }

  /** The highest bit that a byte can have. */
  lemma TopBit(x: byte, k: nat)
    requires k < 8 && x < TwoTo(k + 1)
    ensures Bit(x, k) <==> x >= TwoTo(k)
  {
  }

  /** An integer without its leading zero bytes, but with at least one byte if it has any. */
  function Trim(x: seq<byte>): (t: seq<byte>)
    ensures x != [] ==> t != []
  {
    if |x| > 1 && x[0] == 0 then Trim(x[1..]) else x
  }

  lemma {:induction false} TrimSkips(x: seq<byte>, i: nat)
    requires i < |x| && (forall j | 0 <= j < i :: x[j] == 0) && (i + 1 == |x| || x[i] != 0)
    ensures Trim(x) == x[i..]
  {
    if i > 0 {
      TrimSkips(x[1..], i - 1);
      assert x[1..][i - 1..] == x[i..];
    }
  }

  lemma {:induction false} TrimValue(x: seq<byte>)
    ensures Value(Trim(x)) == Value(x)
  {
    hide Pow2, Value;
    if |x| > 1 && x[0] == 0 {
      TrimValue(x[1..]);
      ValueFront(0, x[1..]);
      assert x == [0] + x[1..];
    }
  }

  /** How many binary digits a number has. */
  function NumBits(v: nat): nat {
    if v == 0 then 0 else 1 + NumBits(v / 2)
  }

  lemma {:induction false} NumBitsExact(v: nat)
    ensures HasBits(v, NumBits(v))
  {
    if v > 0 {
      NumBitsExact(v / 2);
    }
  }

  lemma HasBitsUnique(v: nat, m: nat, n: nat)
    requires HasBits(v, m) && HasBits(v, n)
    ensures m == n
  {
    if m < n { Pow2Monotone(m, n - 1); }
    if n < m { Pow2Monotone(n, m - 1); }
  }

  /** The number of bits written for an integer: exact, except that a zero of one byte or
      more counts as one bit. */
  function BitLength(x: seq<byte>): nat {
    if x == [] then 0 else if Value(x) == 0 then 1 else NumBits(Value(x))
  }

  lemma Scaled(b: nat, lo: nat, hi: nat, m: nat, rest: nat)
    requires lo <= b < hi && rest < m
    ensures m * lo <= b * m + rest < m * hi
  {
    MulMonotone(lo, b, m);
    MulMonotone(b, hi, m);
  }

  /** A number whose first byte has its highest bit at k. */
  lemma LeadingBits(x: seq<byte>, k: nat)
    requires x != [] && k < 8 && TwoTo(k) <= x[0] < TwoTo(k + 1)
    ensures HasBits(Value(x), 8 * (|x| - 1) + k + 1)
  {
    hide Value, Pow2, TwoTo;
    var rest := x[1..];
    var m := Pow2(8 * |rest|);
    assert x == [x[0]] + rest;
    ValueFront(x[0], rest);
    ValueBound(rest);
    Pow2Add(8 * |rest|, k);
    Pow2Add(8 * |rest|, k + 1);
    Scaled(x[0], TwoTo(k), TwoTo(k + 1), m, Value(rest));
  }

  /** sshcom_put_mpint: the scan for the first bit that is set. */
  method PutMpint(x: seq<byte>) returns (bits: nat, kept: seq<byte>)
    ensures kept == Trim(x) && |kept| == (bits + 7) / 8
    ensures bits == BitLength(x)
  {
    hide Pow2, Value, TwoTo, Bit, Trim, BitLength;
    var b, i: nat := |x| * 8 - 1, 0;
    if x != [] { FirstByte(x); }
    while b > 0
      invariant -1 <= b && (x == [] ==> b == -1 && i == 0)
      invariant x != [] ==> Scanning(x, i, b)
      decreases b
    {
      TopBit(x[i], b % 8);
      if Bit(x[i], b % 8) {
        break;
      }
      if b % 8 == 0 {
        TwoToSmall();
        i := i + 1;
      }
      b := b - 1;
    }
    bits, kept := b + 1, x[i..];
    if x == [] {
      NothingToScan();
    } else {
      ScanStopped(x, i, b);
    }
  }

  /** Bit b lies in byte i, and there is no bit set above it. */
  ghost predicate Scanning(x: seq<byte>, i: nat, b: int) {
    && i < |x| && 8 * (|x| - i - 1) <= b < 8 * (|x| - i)
    && x[i] < TwoTo(b % 8 + 1)
    && forall j | 0 <= j < i :: x[j] == 0
  }

  lemma NothingToScan()
    ensures BitLength([]) == 0 && Trim([]) == []
  {
  }

  lemma ScanStopped(x: seq<byte>, i: nat, b: int)
    requires Scanning(x, i, b) && (b == 0 || x[i] >= TwoTo(b % 8))
    ensures Trim(x) == x[i..] && BitLength(x) == b + 1 && |x[i..]| == (b + 1 + 7) / 8
  {
    hide Pow2, Value, TwoTo, Trim, NumBits, HasBits;
    var y := x[i..];
    TwoToSmall();
    TwoToPositive(b % 8);
    TrimSkips(x, i);
    TrimValue(x);
    if x[i] == 0 {
      assert y == [0];
      ValueOfZero();
    } else {
      assert x[i] >= TwoTo(b % 8);
      LeadingBits(y, b % 8);
      NotZero(Value(y), b + 1);
      NumBitsExact(Value(y));
      HasBitsUnique(Value(y), NumBits(Value(y)), b + 1);
    }
  }

  lemma ValueOfZero()
    ensures Value([0]) == 0
  {
  }

  lemma NotZero(v: nat, n: nat)
    requires HasBits(v, n) && n > 0
    ensures v > 0
  {
  }

  lemma TwoToPositive(k: nat)
    requires k < 8
    ensures TwoTo(k) > 0
  {
  }

  lemma FirstByte(x: seq<byte>)
    requires x != []
    ensures Scanning(x, 0, |x| * 8 - 1)
  {
  }

  lemma TwoToSmall()
    ensures TwoTo(0) == 1 && TwoTo(1) == 2 && TwoTo(8) == 256
  {
  }

  /** The bytes that are left are as many as the bits need. */
  lemma TrimLength(x: seq<byte>)
    ensures |Trim(x)| == (BitLength(x) + 7) / 8
  {
    hide Pow2, Value, TwoTo, NumBits, HasBits, BitLength;
    if x == [] {
      NothingToScan();
    } else {
      var i := FirstKept(x);
      TwoToSmall();
      if x[i] == 0 {
        ScanStopped(x, i, 0);
      } else {
        var k := HighBit(x[i]);
        ScanStopped(x, i, 8 * (|x| - i - 1) + k);
      }
    }
  }

  function FirstKept(x: seq<byte>): (i: nat)
    requires x != []
    ensures i < |x| && (forall j | 0 <= j < i :: x[j] == 0) && (i + 1 == |x| || x[i] != 0)
  {
    if |x| > 1 && x[0] == 0 then
      var i := FirstKept(x[1..]);
      assert forall j | 0 < j <= i :: x[j] == x[1..][j - 1];
      i + 1
    else 0
  }

  function HighBit(b: byte): (k: nat)
    requires b > 0
    ensures k < 8 && TwoTo(k) <= b < TwoTo(k + 1)
  {
    if b < 2 then 0 else if b < 4 then 1 else if b < 8 then 2 else if b < 16 then 3
    else if b < 32 then 4 else if b < 64 then 5 else if b < 128 then 6 else 7
  }
}
