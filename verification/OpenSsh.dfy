/** OpenSSH private keys in external/putty/import.c: a SEQUENCE of INTEGERs, written
    in two passes and read back into key blobs. */
module OpenSsh {
  import opened Ber
  import opened Bytes
  import opened KeyBlobs
  import opened Wrappers

  const CONSTRUCTED: byte := 0x20

  /** The integers in the order of the file. dmp1 and dmq1 come out of bignum arithmetic. */
  function Numbers(k: Key, dmp1: seq<byte>, dmq1: seq<byte>): seq<seq<byte>> {
    match k
    case Rsa(e, n, d, p, q, iqmp) => [[0], n, e, d, p, q, dmp1, dmq1, iqmp]
    case Dss(p, q, g, y, x) => [[0], p, q, g, y, x]
  }

  function Int(x: seq<byte>): seq<byte>
    requires |x| < 0x100_0000
  {
    Header(2, |x|, 0) + x
  }

  /** All integers one after the other. */
  function Ints(xs: seq<seq<byte>>): seq<byte>
    requires forall i | 0 <= i < |xs| :: |xs[i]| < 0x100_0000
  {
    if xs == [] then [] else Ints(xs[..|xs| - 1]) + Int(xs[|xs| - 1])
  }

  /** The sizes for which the shifts of the writer are defined. */
  predicate Encodable(xs: seq<seq<byte>>) {
    (forall i | 0 <= i < |xs| :: |xs[i]| < 0x100_0000) && |Ints(xs)| < 0x100_0000
  }

  function Encoded(xs: seq<seq<byte>>): seq<byte>
    requires Encodable(xs)
  {
    Header(16, |Ints(xs)|, CONSTRUCTED) + Ints(xs)
  }

  /** At least one byte of padding, up to a multiple of eight, each saying how many. */
  function Padding(len: nat, passphrase: bool): (s: seq<byte>)
    ensures passphrase ==> 1 <= |s| <= 8 && (len + |s|) % 8 == 0 && forall i | 0 <= i < |s| :: s[i] == |s|
    ensures !passphrase ==> s == []
  {
    if passphrase then seq(8 - len % 8, _ => 8 - len % 8) else []
  }

  /** What OpenSSL does to strip the padding: drop as many bytes as the last one says. */
  function Stripped(s: seq<byte>): seq<byte>
    requires s != [] && s[|s| - 1] <= |s|
  {
    s[..|s| - s[|s| - 1]]
  }

  lemma PaddingStrips(x: seq<byte>)
    ensures var s := x + Padding(|x|, true);
            s != [] && |s| % 8 == 0 && s[|s| - 1] <= |s| && Stripped(s) == x
  {
  }

  // ---------- Writing ----------

  /** Pass 1: the size of the integers, with no buffer. */
  method SizePass(xs: seq<seq<byte>>) returns (len: nat)
    requires Encodable(xs)
    ensures len == |Ints(xs)|
  {
    hide Header, DigitCount;
    len := 0;
    for i := 0 to |xs|
      invariant len == |Ints(xs[..i])|
    {
      var k := WriteIdLen(null, 0, 2, |xs[i]|, 0);
      len := len + k + |xs[i]|;
      assert xs[..i + 1][..i] == xs[..i];
    }
    assert xs[..|xs|] == xs;
  }

  /** Writes one integer. */
  method PutInt(out: array<byte>, at: nat, x: seq<byte>) returns (len: nat)
    requires |x| < 0x100_0000 && at + |Int(x)| <= out.Length
    modifies out
    ensures len == |Int(x)| && Patched(old(out[..]), out[..], at, Int(x))
  {
    hide Header, DigitCount, Patched;
    ghost var before := out[..];
    var k := WriteIdLen(out, at, 2, |x|, 0);
    ghost var mid := out[..];
    var next := PutBytes(out, at + k, x);
    PatchedTwice(before, mid, out[..], at, Header(2, |x|, 0), x);
    len := next - at;
  }

  /** Pass 2: the integers, into the buffer. */
  method WritePass(out: array<byte>, at: nat, xs: seq<seq<byte>>) returns (pos: nat)
    requires Encodable(xs) && at + |Ints(xs)| <= out.Length
    modifies out
    ensures pos == at + |Ints(xs)| && Patched(old(out[..]), out[..], at, Ints(xs))
  {
    hide Int, Patched;
    ghost var before := out[..];
    pos := at;
    PatchedNothing(before, at);
    for i := 0 to |xs|
      invariant pos == at + |Ints(xs[..i])| && Patched(before, out[..], at, Ints(xs[..i]))
    {
      IntsPrefix(xs, i + 1);
      assert xs[..i + 1][..i] == xs[..i];
      ghost var mid := out[..];
      var k := PutInt(out, pos, xs[i]);
      PatchedTwice(before, mid, out[..], at, Ints(xs[..i]), Int(xs[i]));
      pos := pos + k;
    }
    assert xs[..|xs|] == xs;
  }

  lemma {:induction false} IntsPrefix(xs: seq<seq<byte>>, i: nat)
    requires i <= |xs| && forall j | 0 <= j < |xs| :: |xs[j]| < 0x100_0000
    ensures |Ints(xs[..i])| <= |Ints(xs)|
    decreases |xs|
  {
    hide Int;
    if i < |xs| {
      var init := xs[..|xs| - 1];
      IntsPrefix(init, i);
      assert init[..i] == xs[..i];
    } else {
      assert xs[..i] == xs;
    }
  }

  /** The ASN.1 part of openssh_write: count, allocate, write, pad. The assertion between
      the passes is the one of the source. */
  method Encode(xs: seq<seq<byte>>, passphrase: bool) returns (out: array<byte>)
    requires Encodable(xs)
    ensures fresh(out) && out[..] == Encoded(xs) + Padding(|Encoded(xs)|, passphrase)
  {
    hide Header, DigitCount, Ints, Patched, Padding;
    var seqlen := SizePass(xs);
    var k := WriteIdLen(null, 0, 16, seqlen, CONSTRUCTED);
    var len := seqlen + k;
    var outlen := if passphrase then (len + 8) / 8 * 8 else len;
    PaddingLength(len, passphrase);
    out := new byte[outlen];
    ghost var blank := out[..];
    var pos := WriteIdLen(out, 0, 16, seqlen, CONSTRUCTED);
    ghost var mid := out[..];
    pos := WritePass(out, pos, xs);
    PatchedTwice(blank, mid, out[..], 0, Header(16, seqlen, CONSTRUCTED), Ints(xs));
    PatchedFront(blank, out[..], Encoded(xs));
    assert pos == len;
    Pad(out, len, passphrase);
  }

  /** The padding loop. */
  method Pad(out: array<byte>, len: nat, passphrase: bool)
    requires out.Length == len + |Padding(len, passphrase)|
    modifies out
    ensures out[..] == old(out[..len]) + Padding(len, passphrase)
  {
    hide Padding;
    var pos := len;
    while pos < out.Length
      invariant len <= pos <= out.Length
      invariant out[..pos] == old(out[..len]) + Padding(len, passphrase)[..pos - len]
    {
      out[pos] := out.Length - len;
      PaddingAt(len, passphrase, pos - len);
      pos := pos + 1;
    }
    assert out[..pos] == out[..];
  }

  lemma PatchedFront(before: seq<byte>, after: seq<byte>, x: seq<byte>)
    requires Patched(before, after, 0, x)
    ensures |x| <= |after| && after[..|x|] == x
  {
  }

  lemma PaddingLength(len: nat, passphrase: bool)
    ensures (if passphrase then (len + 8) / 8 * 8 else len) == len + |Padding(len, passphrase)|
  {
  }

  lemma PaddingAt(len: nat, passphrase: bool, i: nat)
    requires i < |Padding(len, passphrase)|
    ensures Padding(len, passphrase)[i] == |Padding(len, passphrase)|
  {
  }

  // ---------- Reading ----------

  /** The integers from number i up to n, at pos; the first of all must be zero. */
  function ReadInts(blob: seq<byte>, pos: nat, i: nat, n: nat): Attempt<seq<seq<byte>>>
    requires pos <= |blob| && i <= n
    decreases n - i
  {
    if i == n then Done([])
    else
      match ReadInt(blob, pos)
      case Refused => Refused
      case Undefined => Undefined
      case Done(f) =>
        if i == 0 && f.1 != [0] then Refused
        else
          match ReadInts(blob, pos + f.0 + |f.1|, i + 1, n)
          case Refused => Refused
          case Undefined => Undefined
          case Done(rest) => Done([f.1] + rest)
  }

  /** One INTEGER at pos: the size of its header, and its contents. */
  function ReadInt(blob: seq<byte>, pos: nat): (r: Attempt<(nat, seq<byte>)>)
    requires pos <= |blob|
    ensures r.Done? ==> pos + r.value.0 + |r.value.1| <= |blob|
  {
    match ReadSpec(blob[pos..])
    case Refused => Refused
    case Undefined => Undefined
    case Done(t) =>
      if t.id != 2 || |blob| < pos + t.used + t.length then Refused
      else Done((t.used, blob[pos + t.used..pos + t.used + t.length]))
  }

  /** The key blobs for the integers of a file: 0 n e d p q dmp1 dmq1 iqmp, or
      0 p q g y x. */
  function Assemble(xs: seq<seq<byte>>, rsa: bool): Blobs
    requires |xs| == Count(rsa)
  {
    if rsa then
      Blobs(Str(SSH_RSA) + Str(xs[2]) + Str(xs[1]), Str(xs[3]) + Str(xs[4]) + Str(xs[5]) + Str(xs[8]))
    else
      Blobs(Str(SSH_DSS) + Str(xs[1]) + Str(xs[2]) + Str(xs[3]) + Str(xs[4]), Str(xs[5]))
  }

  function Count(rsa: bool): nat { if rsa then 9 else 6 }

  lemma {:induction false} ReadIntsCount(blob: seq<byte>, pos: nat, i: nat, n: nat)
    requires pos <= |blob| && i <= n
    ensures ReadInts(blob, pos, i, n).Done? ==> |ReadInts(blob, pos, i, n).value| == n - i
    decreases n - i
  {
    hide ReadInt;
    if i < n && ReadInt(blob, pos).Done? {
      var f := ReadInt(blob, pos).value;
      ReadIntsCount(blob, pos + f.0 + |f.1|, i + 1, n);
    }
  }

  /** The key blobs that openssh_read finds in a decrypted key blob. */
  function ReadKey(blob: seq<byte>, rsa: bool): Attempt<Blobs> {
    match ReadSpec(blob)
    case Refused => Refused
    case Undefined => Undefined
    case Done(t) =>
      if t.id != 16 then Refused
      else
        ReadIntsCount(blob, t.used, 0, Count(rsa));
        match ReadInts(blob, t.used, 0, Count(rsa))
        case Refused => Refused
        case Undefined => Undefined
        case Done(xs) => Done(Assemble(xs, rsa))
  }

  /** The blob that the loop has put together after the integers xs: the first goes
      nowhere; for RSA the modulus waits for the exponent, and two are left out. */
  function Built(xs: seq<seq<byte>>, rsa: bool): (s: seq<byte>)
    ensures |s| > 0
  {
    if |xs| <= 1 then Str(if rsa then SSH_RSA else SSH_DSS)
    else
      var i := |xs| - 1;
      var blob := Built(xs[..i], rsa);
      if !rsa then blob + Str(xs[i])
      else if i == 1 || i == 6 || i == 7 then blob
      else if i == 2 then blob + Str(xs[2]) + Str(xs[1])
      else blob + Str(xs[i])
  }

  lemma BuiltNext(xs: seq<seq<byte>>, x: seq<byte>, rsa: bool)
    requires |xs| >= 1
    ensures var i := |xs|;
            Built(xs + [x], rsa) == if rsa && (i == 1 || i == 6 || i == 7) then Built(xs, rsa)
                                    else if rsa && i == 2 then Built(xs, rsa) + Str(x) + Str(xs[1])
                                    else Built(xs, rsa) + Str(x)
  {
  }

  /** Put together step by step or all at once, the blobs are the same. */
  lemma BuiltIsAssembled(xs: seq<seq<byte>>, rsa: bool)
    requires |xs| == Count(rsa)
    ensures var b := Assemble(xs, rsa);
            Built(xs, rsa) == b.pub + b.priv && b.pub == Built(xs[..if rsa then 3 else 5], rsa)
  {
    hide Str, Built;
    BuiltFirst(xs, rsa);
    BuiltAt(xs, rsa, 1);
    BuiltAt(xs, rsa, 2);
    if rsa {
      BuiltTail(xs);
    } else {
      BuiltAt(xs, rsa, 3);
      BuiltAt(xs, rsa, 4);
      BuiltAt(xs, rsa, 5);
      assert xs[..6] == xs;
    }
  }

  /** The private part of an RSA key, behind whatever was there. */
  lemma BuiltTail(xs: seq<seq<byte>>)
    requires |xs| == 9
    ensures Built(xs, true) == Built(xs[..3], true) + (Str(xs[3]) + Str(xs[4]) + Str(xs[5]) + Str(xs[8]))
  {
    hide Str, Built;
    BuiltAt(xs, true, 3);
    BuiltAt(xs, true, 4);
    BuiltAt(xs, true, 5);
    BuiltAt(xs, true, 6);
    BuiltAt(xs, true, 7);
    BuiltAt(xs, true, 8);
    assert xs[..9] == xs;
    FourAtTheEnd(Built(xs[..3], true), Str(xs[3]), Str(xs[4]), Str(xs[5]), Str(xs[8]));
  }

  lemma FourAtTheEnd(p: seq<byte>, a: seq<byte>, b: seq<byte>, c: seq<byte>, d: seq<byte>)
    ensures p + a + b + c + d == p + (a + b + c + d)
  {
  }

  lemma BuiltFirst(xs: seq<seq<byte>>, rsa: bool)
    requires |xs| >= 1
    ensures Built(xs[..1], rsa) == Str(if rsa then SSH_RSA else SSH_DSS)
  {
  }

  lemma BuiltAt(xs: seq<seq<byte>>, rsa: bool, i: nat)
    requires 1 <= i < |xs|
    ensures Built(xs[..i + 1], rsa) == if rsa && (i == 1 || i == 6 || i == 7) then Built(xs[..i], rsa)
                                       else if rsa && i == 2 then Built(xs[..i], rsa) + Str(xs[2]) + Str(xs[1])
                                       else Built(xs[..i], rsa) + Str(xs[i])
  {
    hide Str, Built;
    assert xs[..i + 1] == xs[..i] + [xs[i]];
    BuiltNext(xs[..i], xs[i], rsa);
  }

  /** No number is put into the blob twice. */
  lemma {:induction false} BuiltSize(xs: seq<seq<byte>>, rsa: bool)
    ensures |Built(xs, rsa)| <= 11 + 4 * |xs| + |Concat(xs)|
  {
    if |xs| > 1 {
      var i := |xs| - 1;
      BuiltSize(xs[..i], rsa);
      if rsa && i == 2 { assert xs[..2][..1] == xs[..1]; }
    }
  }

  /** Every blob that the loop puts together on the way fits the space for it. */
  lemma BuiltFits(blob: seq<byte>, pos: nat, xs: seq<seq<byte>>, x: seq<byte>, rsa: bool)
    requires |xs| <= 8 && |Concat(xs)| <= pos && pos + |x| <= |blob|
    ensures |Concat(xs + [x])| <= pos + |x| && |Built(xs + [x], rsa)| <= 256 + |blob|
  {
    hide Built;
    ConcatOne(xs, x);
    BuiltSize(xs + [x], rsa);
  }

  /** The integers read so far, those still to come, and all of them. */
  ghost predicate Joined(xs: seq<seq<byte>>, rest: Attempt<seq<seq<byte>>>, all: Attempt<seq<seq<byte>>>) {
    match rest
    case Done(ys) => all == Done(xs + ys)
    case Refused => all.Refused?
    case Undefined => all.Undefined?
  }

  lemma JoinedStep(xs: seq<seq<byte>>, blob: seq<byte>, pos: nat, i: nat, n: nat, all: Attempt<seq<seq<byte>>>)
    requires pos <= |blob| && i < n && Joined(xs, ReadInts(blob, pos, i, n), all)
    ensures match ReadInt(blob, pos)
            case Refused => all.Refused?
            case Undefined => all.Undefined?
            case Done(f) =>
              if i == 0 && f.1 != [0] then all.Refused?
              else Joined(xs + [f.1], ReadInts(blob, pos + f.0 + |f.1|, i + 1, n), all)
  {
    hide ReadInt;
    if ReadInt(blob, pos).Done? {
      var f := ReadInt(blob, pos).value;
      var rest := ReadInts(blob, pos + f.0 + |f.1|, i + 1, n);
      if rest.Done? {
        assert xs + ([f.1] + rest.value) == xs + [f.1] + rest.value;
      }
    }
  }

  lemma JoinedEnds(xs: seq<seq<byte>>, blob: seq<byte>, pos: nat, n: nat, all: Attempt<seq<seq<byte>>>)
    requires pos <= |blob|
    ensures Joined([], all, all)
    ensures Joined(xs, ReadInts(blob, pos, n, n), all) ==> all == Done(xs)
  {
    assert xs + [] == xs;
    if all.Done? { assert [] + all.value == all.value; }
  }

  /** PUT_32BIT and memcpy behind the first used bytes of the buffer. */
  method PutStr(out: array<byte>, used: nat, x: seq<byte>) returns (next: nat)
    requires used + |Str(x)| <= out.Length
    modifies out
    ensures next == used + |Str(x)| && out[..next] == old(out[..used]) + Str(x)
  {
    next := PutBytes(out, used, Be32(|x|));
    assert out[..next] == old(out[..used]) + Be32(|x|);
    next := PutBytes(out, next, x);
    assert out[..next] == old(out[..used]) + Be32(|x|) + x;
    assert out[..next] == old(out[..used]) + Str(x);
  }

  /** One turn of the loop: the buffer starts with what it has put together. */
  method TakeInt(out: array<byte>, used: nat, xs: seq<seq<byte>>, x: seq<byte>, rsa: bool) returns (next: nat)
    requires |xs| >= 1 && used <= out.Length && out[..used] == Built(xs, rsa)
    requires |Built(xs + [x], rsa)| <= out.Length
    modifies out
    ensures next <= out.Length && out[..next] == Built(xs + [x], rsa)
  {
    hide Str, Built;
    BuiltNext(xs, x, rsa);
    var i := |xs|;
    next := used;
    if rsa {
      if i == 1 {
        // kept for after the exponent
      } else if i != 6 && i != 7 {
        next := PutStr(out, next, x);
        if i == 2 {
          next := PutStr(out, next, xs[1]);
        }
      }
    } else {
      next := PutStr(out, next, x);
    }
  }

  /** The ASN.1 part of openssh_read: the blobs handed to createkey, or an error. The
      buffer has 256 bytes more than the blob that is read; no write goes past it. */
  method Read(blob: seq<byte>, rsa: bool) returns (r: Attempt<Blobs>)
    ensures r == ReadKey(blob, rsa)
  {
    hide *;
    ReadKeyIs(blob, rsa);
    var t := ReadIdLen(blob);
    if !t.Done? {
      return if t.Refused? then Refused else Undefined;
    }
    if t.value.id != 16 {
      return Refused;
    }
    var p, n := t.value.used, Count(rsa);
    ghost var all := ReadInts(blob, p, 0, n);
    var xs: seq<seq<byte>> := [];
    var out, privptr := new byte[256 + |blob|], -1;
    BuiltNothing(rsa);
    var used := PutStr(out, 0, if rsa then SSH_RSA else SSH_DSS);
    var lastPublic := if rsa then 2 else 4;
    CountIs(rsa);
    JoinedEnds([], blob, p, n, all);
    for i := 0 to n
      invariant 0 <= p <= |blob| && |xs| == i && Joined(xs, ReadInts(blob, p, i, n), all) && |Concat(xs)| <= p
      invariant 0 <= used <= out.Length && out[..used] == Built(xs, rsa)
      invariant privptr == if i > lastPublic then |Built(xs[..lastPublic + 1], rsa)| else -1
    {
      JoinedStep(xs, blob, p, i, n, all);
      var next := ReadInt(blob, p);
      if !next.Done? {
        return if next.Refused? then Refused else Undefined;
      }
      var x := next.value.1;
      p := p + next.value.0;
      BuiltFits(blob, p, xs, x, rsa);
      if i == 0 {
        if |x| != 1 || x[0] != 0 {
          return Refused;
        }
        BuiltVersion(xs, x, rsa);
      } else {
        used := TakeInt(out, used, xs, x, rsa);
        if i == lastPublic {
          privptr := used;
        }
      }
      PrefixMore(xs, x, lastPublic + 1);
      xs := xs + [x];
      p := p + |x|;
    }
    JoinedEnds(xs, blob, p, n, all);
    BuiltIsAssembled(xs, rsa);
    r := Done(Blobs(out[..privptr], out[privptr..used]));
    AssembledFromBuilt(xs, rsa, r.value);
  }

  lemma ReadKeyIs(blob: seq<byte>, rsa: bool)
    ensures var t := ReadSpec(blob);
            match t
            case Refused => ReadKey(blob, rsa) == Refused
            case Undefined => ReadKey(blob, rsa) == Undefined
            case Done(tag) =>
              if tag.id != 16 then ReadKey(blob, rsa) == Refused
              else match ReadInts(blob, tag.used, 0, Count(rsa))
                   case Refused => ReadKey(blob, rsa) == Refused
                   case Undefined => ReadKey(blob, rsa) == Undefined
                   case Done(xs) => |xs| == Count(rsa) && ReadKey(blob, rsa) == Done(Assemble(xs, rsa))
  {
    hide ReadSpec, ReadInts, Assemble;
    if ReadSpec(blob).Done? { ReadIntsCount(blob, ReadSpec(blob).value.used, 0, Count(rsa)); }
  }

  lemma PrefixMore(xs: seq<seq<byte>>, x: seq<byte>, n: nat)
    ensures n <= |xs| ==> (xs + [x])[..n] == xs[..n]
    ensures n == |xs| + 1 ==> (xs + [x])[..n] == xs + [x]
  {
  }

  lemma CountIs(rsa: bool)
    ensures Count(rsa) == if rsa then 9 else 6
  {
  }

  lemma BuiltNothing(rsa: bool)
    ensures Built([], rsa) == Str(if rsa then SSH_RSA else SSH_DSS) && |SSH_RSA| == |SSH_DSS| == 7
    ensures Concat<byte>([]) == []
  {
  }

  lemma BuiltVersion(xs: seq<seq<byte>>, x: seq<byte>, rsa: bool)
    requires xs == []
    ensures Built(xs + [x], rsa) == Built(xs, rsa)
  {
  }

  lemma AssembledFromBuilt(xs: seq<seq<byte>>, rsa: bool, b: Blobs)
    requires |xs| == Count(rsa)
    requires Built(xs, rsa) == b.pub + b.priv && |b.pub| == |Built(xs[..if rsa then 3 else 5], rsa)|
    ensures Assemble(xs, rsa) == b
  {
    BuiltIsAssembled(xs, rsa);
    hide Str, Built, Assemble;
    var c := Assemble(xs, rsa);
    assert c.pub == (c.pub + c.priv)[..|c.pub|] && c.priv == (c.pub + c.priv)[|c.pub|..];
    assert b.pub == (b.pub + b.priv)[..|b.pub|] && b.priv == (b.pub + b.priv)[|b.pub|..];
  }

  /** The smallest length that is too much for an int. */
  lemma LengthTooLarge(rest: seq<byte>, rsa: bool)
    ensures ReadKey([0x30, 0x84, 0x80, 0, 0, 0] + rest, rsa) == Undefined
    ensures ReadKey([0x30, 0x84, 0x7F, 0xFF, 0xFF, 0xFF], rsa) == Refused
  {
    var s: seq<byte>, t: seq<byte> := [0x30, 0x84, 0x80, 0, 0, 0] + rest, [0x30, 0x84, 0x7F, 0xFF, 0xFF, 0xFF];
    assert s[2..6] == [0x80, 0, 0, 0] && t[2..6] == [0x7F, 0xFF, 0xFF, 0xFF];
    FourBytes(0x80, 0, 0, 0);
    FourBytes(0x7F, 0xFF, 0xFF, 0xFF);
    assert t[6..] == [];
  }

  lemma FourBytes(a: byte, b: byte, c: byte, d: byte)
    ensures Number([a, b, c, d], Eight) == 0x100_0000 * a + 0x1_0000 * b + 0x100 * c + d
  {
    assert [a][..0] == [] && Number([a], Eight) == a;
    assert [a, b][..1] == [a] && Number([a, b], Eight) == 0x100 * a + b;
    assert [a, b, c][..2] == [a, b] && Number([a, b, c], Eight) == 0x1_0000 * a + 0x100 * b + c;
    assert [a, b, c, d][..3] == [a, b, c];
  }

  // ---------- Round trip ----------

  lemma {:induction false} IntsFront(xs: seq<seq<byte>>)
    requires xs != [] && forall i | 0 <= i < |xs| :: |xs[i]| < 0x100_0000
    ensures Ints(xs) == Int(xs[0]) + Ints(xs[1..])
  {
    hide *;
    IntsLast(xs);
    if |xs| > 1 {
      var init := xs[..|xs| - 1];
      IntsFront(init);
      var rest := xs[1..];
      IntsLast(rest);
      assert init[1..] == rest[..|rest| - 1] && rest[|rest| - 1] == xs[|xs| - 1] && init[0] == xs[0];
      assert Int(xs[0]) + (Ints(init[1..]) + Int(xs[|xs| - 1])) == Int(xs[0]) + Ints(init[1..]) + Int(xs[|xs| - 1]);
    } else {
      IntsLast([]);
      assert xs[..0] == [] && xs[1..] == [];
    }
  }

  lemma IntsLast(xs: seq<seq<byte>>)
    requires forall i | 0 <= i < |xs| :: |xs[i]| < 0x100_0000
    ensures Ints(xs) == if xs == [] then [] else Ints(xs[..|xs| - 1]) + Int(xs[|xs| - 1])
  {
  }

  lemma Nested(left: seq<byte>, h: seq<byte>, x: seq<byte>, right: seq<byte>)
    ensures var s := left + (h + x) + right;
            s[|left|..] == h + (x + right) && s[|left| + |h|..|left| + |h| + |x|] == x
  {
  }

  lemma ReadIntOf(left: seq<byte>, x: seq<byte>, right: seq<byte>)
    requires |x| < 0x100_0000
    ensures ReadInt(left + Int(x) + right, |left|) == Done((|Int(x)| - |x|, x))
  {
    hide Header, DigitCount, ReadSpec;
    var h := Header(2, |x|, 0);
    HeaderRoundTrip(2, |x|, 0, x + right);
    Nested(left, h, x, right);
  }

  lemma {:induction false} ReadIntsOf(left: seq<byte>, xs: seq<seq<byte>>, right: seq<byte>, i: nat)
    requires forall i | 0 <= i < |xs| :: |xs[i]| < 0x100_0000
    requires i == 0 && xs != [] ==> xs[0] == [0]
    ensures ReadInts(left + Ints(xs) + right, |left|, i, i + |xs|) == Done(xs)
    decreases |xs|
  {
    hide Int, ReadInt;
    if xs != [] {
      var rest := xs[1..];
      IntsFront(xs);
      var s := left + Ints(xs) + right;
      assert s == left + Int(xs[0]) + (Ints(rest) + right);
      ReadIntOf(left, xs[0], Ints(rest) + right);
      assert s == (left + Int(xs[0])) + Ints(rest) + right;
      ReadIntsOf(left + Int(xs[0]), rest, right, i + 1);
      assert [xs[0]] + rest == xs;
    }
  }

  /** Main theorem. What openssh_write puts out, padded or not, openssh_read turns into
      the same two key blobs, byte for byte. */
  lemma RoundTrip(k: Key, dmp1: seq<byte>, dmq1: seq<byte>, padding: seq<byte>)
    requires Encodable(Numbers(k, dmp1, dmq1))
    ensures ReadKey(Encoded(Numbers(k, dmp1, dmq1)) + padding, k.Rsa?) == Done(BlobsOf(k))
  {
    hide Header, DigitCount, ReadSpec, Ints, ReadInts, Str;
    var xs := Numbers(k, dmp1, dmq1);
    var h := Header(16, |Ints(xs)|, CONSTRUCTED);
    var s := Encoded(xs) + padding;
    assert s == h + (Ints(xs) + padding);
    HeaderRoundTrip(16, |Ints(xs)|, CONSTRUCTED, Ints(xs) + padding);
    assert s == h + Ints(xs) + padding;
    ReadIntsOf(h, xs, padding, 0);
  }

  /** openssh_write and openssh_read one after the other, without encryption. */
  method ExportImport(k: Key, dmp1: seq<byte>, dmq1: seq<byte>, passphrase: bool) returns (r: Attempt<Blobs>)
    requires Short(k, 0x8000_0000) && Encodable(Numbers(k, dmp1, dmq1))
    ensures r == Done(BlobsOf(k))
  {
    hide Encoded, Encodable, Parse, BlobsOf, ReadKey, Padding;
    var blobs := BlobsOf(k);
    ParseBlobs(k);
    var parsed := Parse(blobs, k.Rsa?);
    var out := Encode(Numbers(parsed.value, dmp1, dmq1), passphrase);
    r := Read(out[..], parsed.value.Rsa?);
    RoundTrip(k, dmp1, dmq1, Padding(|Encoded(Numbers(k, dmp1, dmq1))|, passphrase));
  }
}
