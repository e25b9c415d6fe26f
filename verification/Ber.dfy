/** The identifier and length octets of ASN.1 BER (X.690 sections 8.1.2 and 8.1.3)
    as external/putty/import.c writes and reads them. */
module Ber {
  import opened Bytes
  import opened Wrappers

  // ---------- Digits of seven and of eight bits ----------

  datatype Width = Seven | Eight

  /** v without its last digit, and that digit. */
  function Quot(v: nat, w: Width): (q: nat)
    ensures q <= v && (v > 0 ==> q < v)
  {
    if w.Seven? then v / 128 else v / 256
  }

  function Rem(v: nat, w: Width): (r: nat)
    ensures r < 256 && (w.Seven? ==> r < 128)
  {
    if w.Seven? then v % 128 else v % 256
  }

  function Join(q: nat, r: nat, w: Width): nat {
    if w.Seven? then 128 * q + r else 256 * q + r
  }

  lemma JoinSplit(v: nat, w: Width)
    ensures Join(Quot(v, w), Rem(v, w), w) == v
  {
  }

  /** v >> (k * width) */
  function Shift(v: nat, k: nat, w: Width): nat {
    if k == 0 then v else Shift(Quot(v, w), k - 1, w)
  }

  lemma {:induction false} ShiftOneMore(v: nat, k: nat, w: Width)
    ensures Shift(v, k + 1, w) == Quot(Shift(v, k, w), w)
  {
    hide Quot;
    if k > 0 { ShiftOneMore(Quot(v, w), k - 1, w); }
  }

  /** The last n digits of v, most significant first. */
  function Digits(v: nat, n: nat, w: Width): (ds: seq<nat>)
    ensures |ds| == n
    ensures forall i | 0 <= i < n :: ds[i] < 256 && (w.Seven? ==> ds[i] < 128)
  {
    if n == 0 then [] else Digits(Quot(v, w), n - 1, w) + [Rem(v, w)]
  }

  lemma {:induction false} DigitAt(v: nat, n: nat, w: Width, k: nat)
    requires k < n
    ensures Digits(v, n, w)[n - 1 - k] == Rem(Shift(v, k, w), w)
  {
    hide Quot, Rem;
    if k > 0 { DigitAt(Quot(v, w), n - 1, w, k - 1); }
  }

  /** The number that digits stand for. */
  function Number(ds: seq<nat>, w: Width): nat {
    if ds == [] then 0 else Join(Number(ds[..|ds| - 1], w), ds[|ds| - 1], w)
  }

  lemma {:induction false} NumberOfDigits(v: nat, n: nat, w: Width)
    ensures Shift(v, n, w) == 0 ==> Number(Digits(v, n, w), w) == v
  {
    hide Quot, Rem, Join;
    if n > 0 {
      NumberOfDigits(Quot(v, w), n - 1, w);
      JoinSplit(v, w);
      var ds := Digits(v, n, w);
      assert ds[..|ds| - 1] == Digits(Quot(v, w), n - 1, w);
    }
  }

  /** The least number of digits, at least one, that holds v. */
  function DigitCount(v: nat, w: Width): (n: nat)
    ensures n >= 1
  {
    if Quot(v, w) == 0 then 1 else 1 + DigitCount(Quot(v, w), w)
  }

  lemma {:induction false} DigitCountLeast(v: nat, w: Width, n: nat)
    requires n >= 1
    ensures Shift(v, n, w) == 0 <==> n >= DigitCount(v, w)
    decreases v
  {
    hide Quot;
    if Quot(v, w) == 0 {
      ShiftZero(n - 1, w);
    } else if n > 1 {
      DigitCountLeast(Quot(v, w), w, n - 1);
    }
  }

  lemma {:induction false} ShiftZero(n: nat, w: Width)
    ensures Shift(0, n, w) == 0
  {
    if n > 0 { ShiftZero(n - 1, w); }
  }

  /** A shift of an int by k digits is one of fewer than 32 bits. */
  predicate Shiftable(k: nat, w: Width) {
    if w.Seven? then 7 * k < 32 else 8 * k < 32
  }

  function ShiftRight(v: nat, k: nat, w: Width): nat
    requires Shiftable(k, w)
  {
    Shift(v, k, w)
  }

  /** Counting up to the first shift that leaves nothing stays below 32 bits exactly for
      identifiers below 2^28 and lengths below 2^24. */
  lemma ShiftsDefined(v: nat, w: Width)
    ensures Shiftable(DigitCount(v, w), w) <==> v < if w.Seven? then 0x1000_0000 else 0x100_0000
    ensures Shiftable(DigitCount(v, w), w) ==> DigitCount(v, w) <= 4
  {
    hide DigitCount;
    if w.Seven? {
      ShiftFour(v);
      DigitCountLeast(v, w, 4);
    } else {
      ShiftThree(v);
      DigitCountLeast(v, w, 3);
    }
  }

  lemma ShiftFour(v: nat)
    ensures Shift(v, 4, Seven) == 0 <==> v < 0x1000_0000
  {
    var q1 := Quot(v, Seven);
    var q2 := Quot(q1, Seven);
    var q3 := Quot(q2, Seven);
    assert Shift(q3, 1, Seven) == Quot(q3, Seven);
    assert Shift(q2, 2, Seven) == Shift(q3, 1, Seven);
    assert Shift(q1, 3, Seven) == Shift(q2, 2, Seven);
  }

  lemma ShiftThree(v: nat)
    ensures Shift(v, 3, Eight) == 0 <==> v < 0x100_0000
  {
    var q1 := Quot(v, Eight);
    var q2 := Quot(q1, Eight);
    assert Shift(q2, 1, Eight) == Quot(q2, Eight);
    assert Shift(q1, 2, Eight) == Shift(q2, 1, Eight);
  }

  /** Counting the digits, as the writer does. */
  method CountDigits(v: nat, w: Width) returns (n: nat)
    requires Shiftable(DigitCount(v, w), w)
    ensures n == DigitCount(v, w)
  {
    hide Quot, DigitCount;
    n := 1;
    while ShiftRight(v, n, w) > 0
      invariant 1 <= n <= DigitCount(v, w)
      decreases Shift(v, n, w)
    {
      DigitCountLeast(v, w, n);
      ShiftOneMore(v, n, w);
      n := n + 1;
    }
    DigitCountLeast(v, w, n);
  }

  // ---------- Writing ----------

  /** Identifier octets: class and form in flags, the top three bits. */
  function IdOctets(id: nat, flags: byte): (s: seq<byte>)
    requires flags % 32 == 0
    ensures |s| >= 1
  {
    if id <= 30 then [id + flags]
    else [0x1F + flags] + Octets(Digits(id, DigitCount(id, Seven), Seven), true)
  }

  /** Length octets. */
  function LengthOctets(length: nat): (s: seq<byte>)
    requires length < 0x100_0000
    ensures |s| >= 1
  {
    ShiftsDefined(length, Eight);
    if length < 128 then [length]
    else [0x80 + DigitCount(length, Eight)] + Octets(Digits(length, DigitCount(length, Eight), Eight), false)
  }

  function Header(id: nat, length: nat, flags: byte): seq<byte>
    requires flags % 32 == 0 && length < 0x100_0000
  {
    IdOctets(id, flags) + LengthOctets(length)
  }

  /** The contents of a buffer, or nothing for NULL. */
  ghost function Contents(dest: array?<byte>): (s: seq<byte>)
    reads dest
    ensures |s| == if dest == null then 0 else dest.Length
  {
    if dest == null then [] else dest[..]
  }

  /** *d++ = b, unless d is NULL. */
  method PutByte(dest: array?<byte>, at: nat, b: byte)
    requires dest != null ==> at < dest.Length
    modifies dest
    ensures dest != null ==> Patched(old(Contents(dest)), Contents(dest), at, [b])
  {
    if dest != null {
      dest[at] := b;
    }
  }

  /** The octet for digit i: with the top bit set on all but the last when more is true. */
  function Octet(ds: seq<nat>, i: nat, more: bool): byte
    requires i < |ds| && ds[i] < 256 && (more ==> ds[i] < 128)
  {
    if more && i + 1 < |ds| then 0x80 + ds[i] else ds[i]
  }

  function Octets(ds: seq<nat>, more: bool): (s: seq<byte>)
    requires forall i | 0 <= i < |ds| :: ds[i] < 256 && (more ==> ds[i] < 128)
    ensures |s| == |ds|
    ensures forall i | 0 <= i < |ds| :: s[i] == Octet(ds, i, more)
  {
    seq(|ds|, i requires 0 <= i < |ds| => Octet(ds, i, more))
  }

  lemma NextOctet(v: nat, count: nat, w: Width, more: bool, n: nat)
    requires n < count && Shiftable(count, w) && (more ==> w == Seven)
    ensures Shiftable(n, w)
    ensures Octets(Digits(v, count, w), more)[count - 1 - n]
            == (if more && n > 0 then 0x80 else 0) + Rem(ShiftRight(v, n, w), w)
  {
    hide Digits, Rem;
    DigitAt(v, count, w, n);
  }

  /** The loop that writes the digits of v, the most significant first. */
  method PutDigits(dest: array?<byte>, at: nat, v: nat, count: nat, w: Width, more: bool) returns (len: nat)
    requires (more ==> w == Seven) && Shiftable(count, w)
    requires dest != null ==> at + count <= dest.Length
    modifies dest
    ensures len == count
    ensures dest != null ==> Patched(old(Contents(dest)), Contents(dest), at, Octets(Digits(v, count, w), more))
  {
    hide *;
    ghost var out := Octets(Digits(v, count, w), more);
    ghost var before := Contents(dest);
    len := 0;
    var n := count;
    if dest != null { PatchedNothing(before, at); }
    PrefixEnds(out);
    while n > 0
      invariant 0 <= n <= count && len == count - n
      invariant dest != null ==> Patched(before, Contents(dest), at, out[..len])
    {
      n := n - 1;
      NextOctet(v, count, w, more, n);
      ghost var mid := Contents(dest);
      PutByte(dest, at + len, (if more && n > 0 then 0x80 else 0) + Rem(ShiftRight(v, n, w), w));
      if dest != null {
        PatchedMore(before, mid, Contents(dest), at, out, len);
      }
      len := len + 1;
    }
  }

  lemma PrefixEnds(s: seq<byte>)
    ensures s[..0] == [] && s[..|s|] == s
  {
  }

  lemma PatchedMore(a: seq<byte>, b: seq<byte>, c: seq<byte>, at: nat, out: seq<byte>, len: nat)
    requires len < |out| && Patched(a, b, at, out[..len]) && Patched(b, c, at + len, [out[len]])
    ensures Patched(a, c, at, out[..len + 1])
  {
    hide Patched;
    PatchedTwice(a, b, c, at, out[..len], [out[len]]);
    assert out[..len] + [out[len]] == out[..len + 1];
  }

  /** ber_write_id_len, on the arguments for which its shifts are defined: the size is the
      same whether or not there is a buffer. */
  method WriteIdLen(dest: array?<byte>, at: nat, id: nat, length: nat, flags: byte) returns (len: nat)
    requires flags % 32 == 0 && id < 0x1000_0000 && length < 0x100_0000
    requires dest != null ==> at + |Header(id, length, flags)| <= dest.Length
    modifies dest
    ensures len == |Header(id, length, flags)|
    ensures dest != null ==> Patched(old(Contents(dest)), Contents(dest), at, Header(id, length, flags))
  {
    hide Patched, IdOctets, LengthOctets;
    ghost var before := Contents(dest);
    len := WriteId(dest, at, id, flags);
    ghost var mid := Contents(dest);
    var k := WriteLength(dest, at + len, length);
    if dest != null {
      PatchedTwice(before, mid, Contents(dest), at, IdOctets(id, flags), LengthOctets(length));
    }
    len := len + k;
  }

  method WriteId(dest: array?<byte>, at: nat, id: nat, flags: byte) returns (len: nat)
    requires flags % 32 == 0 && id < 0x1000_0000 && (dest != null ==> at + |IdOctets(id, flags)| <= dest.Length)
    modifies dest
    ensures len == |IdOctets(id, flags)|
    ensures dest != null ==> Patched(old(Contents(dest)), Contents(dest), at, IdOctets(id, flags))
  {
    hide Patched, Digits, DigitCount, Octets, Shiftable;
    ghost var before := Contents(dest);
    len := 1;
    if id <= 30 {
      PutByte(dest, at, id + flags);
    } else {
      PutByte(dest, at, 0x1F + flags);
      ghost var mid := Contents(dest);
      ShiftsDefined(id, Seven);
      var n := CountDigits(id, Seven);
      var k := PutDigits(dest, at + 1, id, n, Seven, true);
      len := len + k;
      if dest != null {
        PatchedTwice(before, mid, Contents(dest), at, [0x1F + flags], Octets(Digits(id, n, Seven), true));
      }
    }
  }

  method WriteLength(dest: array?<byte>, at: nat, length: nat) returns (len: nat)
    requires length < 0x100_0000 && (dest != null ==> at + |LengthOctets(length)| <= dest.Length)
    modifies dest
    ensures len == |LengthOctets(length)|
    ensures dest != null ==> Patched(old(Contents(dest)), Contents(dest), at, LengthOctets(length))
  {
    hide Patched, Digits, DigitCount, Octets, Shiftable;
    ghost var before := Contents(dest);
    len := 1;
    if length < 128 {
      PutByte(dest, at, length);
    } else {
      ShiftsDefined(length, Eight);
      var n := CountDigits(length, Eight);
      PutByte(dest, at, 0x80 + n);
      ghost var mid := Contents(dest);
      var k := PutDigits(dest, at + 1, length, n, Eight, false);
      len := len + k;
      if dest != null {
        PatchedTwice(before, mid, Contents(dest), at, [0x80 + n], Octets(Digits(length, n, Eight), false));
      }
    }
  }

  // ---------- Reading ----------

  datatype Tag = Tag(used: nat, id: nat, length: nat, flags: byte)

  /** The loop over a long identifier. Its test looks at the byte before, at first the
      one with the class bits. */
  datatype IdEnd = IdEnd(pos: nat, id: nat)

  function LongId(s: seq<byte>, p: nat, id: nat): Attempt<IdEnd>
    requires p < |s|
    decreases |s| - p
  {
    if s[p] < 128 then Done(IdEnd(p, id))
    else if p + 1 == |s| then Refused
    else if Join(id, s[p + 1] % 128, Seven) >= 0x8000_0000 then Undefined
    else LongId(s, p + 1, Join(id, s[p + 1] % 128, Seven))
  }

  function ReadLength(s: seq<byte>, p: nat, id: nat, flags: byte): (r: Attempt<Tag>)
    ensures r.Done? ==> r.value.used <= |s|
  {
    if p >= |s| then Refused
    else if s[p] < 128 then Done(Tag(p + 1, id, s[p], flags))
    else if |s| - (p + 1) < s[p] - 128 then Refused
    else
      var length := Number(s[p + 1..p + 1 + (s[p] - 128)], Eight);
      if length >= 0x8000_0000 then Undefined else Done(Tag(p + 1 + (s[p] - 128), id, length, flags))
  }

  function ReadSpec(s: seq<byte>): (r: Attempt<Tag>)
    ensures r.Done? ==> r.value.used <= |s|
  {
    if s == [] then Refused
    else
      var flags := s[0] / 32 * 32;
      if s[0] % 32 != 31 then ReadLength(s, 1, s[0] % 32, flags)
      else
        match LongId(s, 0, 0)
        case Refused => Refused
        case Undefined => Undefined
        case Done(e) => ReadLength(s, e.pos + 1, e.id, flags)
  }

  /** ber_read_id_len; Refused is its result -1. */
  method ReadIdLen(s: seq<byte>) returns (r: Attempt<Tag>)
    ensures r == ReadSpec(s)
  {
    if |s| == 0 {
      return Refused;
    }
    var p, id := 0, 0;
    var flags: byte := s[0] / 32 * 32;
    if s[0] % 32 == 31 {
      while s[p] >= 128
        invariant 0 <= p < |s| && 0 <= id
        invariant LongId(s, p, id) == LongId(s, 0, 0)
        decreases |s| - p
      {
        p := p + 1;
        if p == |s| {
          return Refused;
        }
        var next := ShiftIn(id, s[p] % 128, Seven);
        if next.None? {
          return Undefined;
        }
        id := next.value;
      }
    } else {
      id := s[0] % 32;
    }
    p := p + 1;
    if p == |s| {
      return Refused;
    }
    if s[p] < 128 {
      return Done(Tag(p + 1, id, s[p], flags));
    }
    var n := s[p] - 128;
    p := p + 1;
    if |s| - p < n {
      return Refused;
    }
    var length := ReadNumber(s, p, n);
    return if length.None? then Undefined else Done(Tag(p + n, id, length.value, flags));
  }

  /** (v << width) | r on an int: None for a shift that overflows. */
  function ShiftIn(v: nat, r: nat, w: Width): (x: Option<nat>)
    requires r < 256 && (w.Seven? ==> r < 128)
    ensures x == if Join(v, r, w) < 0x8000_0000 then Some(Join(v, r, w)) else None
  {
    if v < (if w.Seven? then 0x100_0000 else 0x80_0000) then Some(Join(v, r, w)) else None
  }

  /** The loop over a long length: None exactly when the number does not fit an int. */
  method ReadNumber(s: seq<byte>, p: nat, n: nat) returns (v: Option<nat>)
    requires p + n <= |s|
    ensures var length := Number(s[p..p + n], Eight); v == if length < 0x8000_0000 then Some(length) else None
  {
    hide Join;
    v := Some(0);
    for i := 0 to n
      invariant v == Some(Number(s[p..p + i], Eight)) && v.value < 0x8000_0000
    {
      assert s[p..p + i + 1][..i] == s[p..p + i];
      v := ShiftIn(v.value, s[p + i], Eight);
      if v.None? {
        assert s[p..p + n][..i + 1] == s[p..p + i + 1];
        NumberGrows(s[p..p + n], i + 1, Eight);
        return;
      }
    }
  }

  /** More digits never make a smaller number. */
  lemma {:induction false} NumberGrows(ds: seq<nat>, j: nat, w: Width)
    requires j <= |ds|
    ensures Number(ds[..j], w) <= Number(ds, w)
    decreases |ds|
  {
    if j < |ds| {
      var init := ds[..|ds| - 1];
      NumberGrows(init, j, w);
      assert init[..j] == ds[..j];
    } else {
      assert ds[..j] == ds;
    }
  }

  // ---------- Round trip ----------

  lemma LengthRoundTrip(left: seq<byte>, length: nat, rest: seq<byte>, id: nat, flags: byte)
    requires length < 0x100_0000
    ensures ReadLength(left + LengthOctets(length) + rest, |left|, id, flags)
            == Done(Tag(|left + LengthOctets(length)|, id, length, flags))
  {
    hide Digits, DigitCount, Number, Octets;
    var octets := LengthOctets(length);
    var s := left + octets + rest;
    assert s[|left|] == octets[0];
    if length >= 128 {
      ShiftsDefined(length, Eight);
      var n := DigitCount(length, Eight);
      var ds := Digits(length, n, Eight);
      assert s[|left| + 1..|left| + 1 + n] == octets[1..];
      OctetsPlain(ds);
      DigitCountLeast(length, Eight, n);
      NumberOfDigits(length, n, Eight);
    }
  }

  lemma OctetsPlain(ds: seq<nat>)
    requires forall i | 0 <= i < |ds| :: ds[i] < 256
    ensures Octets(ds, false) == ds
  {
  }

  /** The loop over a long identifier collects all its digits. */
  lemma {:induction false} LongIdRoundTrip(b: byte, ds: seq<nat>, rest: seq<byte>, j: nat)
    requires b >= 128 && j <= |ds| && ds != [] && (forall i | 0 <= i < |ds| :: ds[i] < 128)
    requires Number(ds, Seven) < 0x8000_0000
    ensures LongId([b] + Octets(ds, true) + rest, j, Number(ds[..j], Seven)) == Done(IdEnd(|ds|, Number(ds, Seven)))
    decreases |ds| - j
  {
    hide Join, Octets;
    var s := [b] + Octets(ds, true) + rest;
    if j < |ds| {
      assert s[j] >= 128;
      assert s[j + 1] % 128 == ds[j];
      assert ds[..j + 1][..j] == ds[..j];
      NumberGrows(ds, j + 1, Seven);
      LongIdRoundTrip(b, ds, rest, j + 1);
    } else {
      assert s[j] == ds[j - 1] < 128;
      assert ds[..j] == ds;
    }
  }

  /** Reading what was written gives it back, exactly for identifiers of one byte and for
      classes with the top bit set; other long identifiers are misread. */
  lemma HeaderRoundTrip(id: nat, length: nat, flags: byte, rest: seq<byte>)
    requires flags % 32 == 0 && id < 0x1000_0000 && length < 0x100_0000
    ensures ReadSpec(Header(id, length, flags) + rest) == Done(Tag(|Header(id, length, flags)|, id, length, flags))
            <==> id <= 30 || flags >= 128
  {
    hide Digits, DigitCount, Number, LengthOctets, Octets, ReadLength;
    var s := Header(id, length, flags) + rest;
    assert s == IdOctets(id, flags) + LengthOctets(length) + rest;
    LengthRoundTrip(IdOctets(id, flags), length, rest, id, flags);
    if id <= 30 {
      assert s[0] == id + flags;
    } else {
      assert s[0] == 31 + flags;
      var n := DigitCount(id, Seven);
      var ds := Digits(id, n, Seven);
      if flags >= 128 {
        DigitCountLeast(id, Seven, n);
        NumberOfDigits(id, n, Seven);
        assert s == [s[0]] + Octets(ds, true) + (LengthOctets(length) + rest);
        LongIdRoundTrip(s[0], ds, LengthOctets(length) + rest, 0);
        NumberOfNothing();
        assert ds[..0] == [];
      } else {
        assert LongId(s, 0, 0) == Done(IdEnd(0, 0));
        ReadLengthKeepsId(s, 1, 0, flags);
      }
    }
  }

  lemma NumberOfNothing()
    ensures Number([], Seven) == 0
  {
  }

  lemma ReadLengthKeepsId(s: seq<byte>, p: nat, id: nat, flags: byte)
    ensures var r := ReadLength(s, p, id, flags); r.Done? ==> r.value.id == id
  {
  }
}
