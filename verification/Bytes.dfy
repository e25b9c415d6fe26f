/** Bytes, big-endian fields and concatenation: the vocabulary shared by every
    model in this project. */
module Bytes {

  type byte = x: int | 0 <= x < 256

  /** The concatenation of a sequence of pieces, in order. */
  function Concat<T>(pieces: seq<seq<T>>): seq<T> {
    if pieces == [] then [] else Concat(pieces[..|pieces| - 1]) + pieces[|pieces| - 1]
  }

  lemma ConcatOne<T>(left: seq<seq<T>>, x: seq<T>)
    ensures Concat(left + [x]) == Concat(left) + x
  {
    assert (left + [x])[..|left|] == left;
  }

  lemma {:induction false} ConcatAppend<T>(left: seq<seq<T>>, right: seq<seq<T>>)
    ensures Concat(left + right) == Concat(left) + Concat(right)
  {
    if right == [] {
      assert left + right == left;
    } else {
      var n := |right| - 1;
      ConcatAppend(left, right[..n]);
      assert left + right == left + right[..n] + [right[n]];
      ConcatOne(left + right[..n], right[n]);
    }
  }

  function Zeros(n: nat): (s: seq<byte>)
    ensures |s| == n && forall i | 0 <= i < n :: s[i] == 0
  {
    seq(n, _ => 0)
  }

  /** fread of n bytes at an offset: short at the end of the file. */
  function Fread(file: seq<byte>, at: nat, n: nat): (s: seq<byte>)
    ensures |s| <= n
  {
    var from := if at <= |file| then at else |file|;
    var to := if at + n <= |file| then at + n else |file|;
    file[from..to]
  }

  lemma FreadBounded(file: seq<byte>, at: nat, n: nat)
    ensures |Fread(file, at, n)| <= |file|
  {
  }

  lemma FreadPrefix(a: seq<byte>, b: seq<byte>, at: nat, n: nat)
    requires at + n <= |a|
    ensures Fread(a + b, at, n) == Fread(a, at, n)
  {
  }

  lemma FreadTail(a: seq<byte>, b: seq<byte>, n: nat)
    requires |b| <= n
    ensures Fread(a + b, |a|, n) == b
  {
  }

  /** The low 32 bits of n, little-endian. */
  function Le32(n: nat): (s: seq<byte>)
    ensures |s| == 4
  {
    [n % 256, (n / 0x100) % 256, (n / 0x1_0000) % 256, (n / 0x100_0000) % 256]
  }

  /** The little-endian number at offset p, in two and in four bytes. */
  function Le16At(s: seq<byte>, p: nat): (n: nat)
    requires p + 2 <= |s|
    ensures n < 0x1_0000
  {
    var b0: int, b1: int := s[p], s[p + 1];
    b0 + 0x100 * b1
  }

  function Le32At(s: seq<byte>, p: nat): (n: nat)
    requires p + 4 <= |s|
    ensures n < 0x1_0000_0000
  {
    Le16At(s, p) + 0x1_0000 * Le16At(s, p + 2)
  }

  lemma Le32RoundTrip(left: seq<byte>, n: nat, right: seq<byte>)
    requires n < 0x1_0000_0000
    ensures Le32At(left + Le32(n) + right, |left|) == n
  {
    var s := left + Le32(n) + right;
    assert s[|left|] == n % 256 && s[|left| + 1] == (n / 0x100) % 256;
    assert s[|left| + 2] == (n / 0x1_0000) % 256 && s[|left| + 3] == (n / 0x100_0000) % 256;
    assert n == n % 256 + 0x100 * ((n / 0x100) % 256) + 0x1_0000 * ((n / 0x1_0000) % 256) + 0x100_0000 * (n / 0x100_0000);
  }

  /** A 32-bit number, big-endian: PUT_32BIT and GET_32BIT. */
  function Be32(n: nat): (s: seq<byte>)
    ensures |s| == 4
  {
    [(n / 0x100_0000) % 256, (n / 0x1_0000) % 256, (n / 0x100) % 256, n % 256]
  }

  function Be32At(s: seq<byte>, p: nat): (n: nat)
    requires p + 4 <= |s|
    ensures n < 0x1_0000_0000
  {
    var b0: int, b1: int, b2: int, b3: int := s[p], s[p + 1], s[p + 2], s[p + 3];
    0x100_0000 * b0 + 0x1_0000 * b1 + 0x100 * b2 + b3
  }

  lemma Be32RoundTrip(left: seq<byte>, n: nat, right: seq<byte>)
    requires n < 0x1_0000_0000
    ensures Be32At(left + Be32(n) + right, |left|) == n
  {
    var s := left + Be32(n) + right;
    assert s[|left|] == (n / 0x100_0000) % 256 && s[|left| + 1] == (n / 0x1_0000) % 256;
    assert s[|left| + 2] == (n / 0x100) % 256 && s[|left| + 3] == n % 256;
    assert n == n % 256 + 0x100 * ((n / 0x100) % 256) + 0x1_0000 * ((n / 0x1_0000) % 256) + 0x100_0000 * (n / 0x100_0000);
  }

  /** A string with its length in front, section 5 of RFC 4251. */
  function Str(x: seq<byte>): (s: seq<byte>)
    ensures |s| == 4 + |x|
  {
    Be32(|x|) + x
  }

  /** memcpy into a buffer. */
  method CopyInto(dst: array<byte>, at: nat, src: seq<byte>)
    requires at + |src| <= dst.Length
    modifies dst
    ensures dst[..] == old(dst[..at]) + src + old(dst[at + |src|..])
  {
    for i := 0 to |src|
      invariant forall k | 0 <= k < dst.Length :: dst[k] == if at <= k < at + i then src[k - at] else old(dst[k])
    {
      dst[at + i] := src[i];
    }
  }

  /** after is before with x written at an offset. */
  ghost predicate Patched(before: seq<byte>, after: seq<byte>, at: nat, x: seq<byte>) {
    at + |x| <= |before| && after == before[..at] + x + before[at + |x|..]
  }

  /** A write into a buffer, and the place behind it. */
  method PutBytes(dst: array<byte>, at: nat, x: seq<byte>) returns (next: nat)
    requires at + |x| <= dst.Length
    modifies dst
    ensures next == at + |x| && Patched(old(dst[..]), dst[..], at, x)
  {
    CopyInto(dst, at, x);
    next := at + |x|;
  }

  lemma PatchedNothing(s: seq<byte>, at: nat)
    requires at <= |s|
    ensures Patched(s, s, at, [])
  {
  }

  /** Two writes side by side are one. */
  lemma PatchedTwice(a: seq<byte>, b: seq<byte>, c: seq<byte>, at: nat, x: seq<byte>, y: seq<byte>)
    requires Patched(a, b, at, x) && Patched(b, c, at + |x|, y)
    ensures Patched(a, c, at, x + y)
  {
  }
}
