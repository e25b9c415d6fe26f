/** The ssh.com key file of external/putty/import.c: a header with lengths filled in
    afterwards, the integers of the key with their bit counts, and the reader that turns
    them into key blobs again. */
module SshComFile {
  import opened Bytes
  import opened KeyBlobs
  import opened SshCom
  import opened Wrappers

  const MAGIC: nat := 0x3f6f_f9eb

  /** "if-modn{sign{rsa" */
  function RsaPrefix(): (s: seq<byte>)
    ensures |s| == 16
  {
    [0x69, 0x66, 0x2d, 0x6d, 0x6f, 0x64, 0x6e, 0x7b, 0x73, 0x69, 0x67, 0x6e, 0x7b, 0x72,
     0x73, 0x61]
  }

  /** "-pkcs1-sha1},encrypt{rsa-pkcs1v2-oaep}}" */
  function RsaSuffix(): (s: seq<byte>)
    ensures |s| == 39
  {
    [0x2d, 0x70, 0x6b, 0x63, 0x73, 0x31, 0x2d, 0x73, 0x68, 0x61, 0x31, 0x7d, 0x2c, 0x65,
     0x6e, 0x63, 0x72, 0x79, 0x70, 0x74, 0x7b, 0x72, 0x73, 0x61, 0x2d, 0x70, 0x6b, 0x63,
     0x73, 0x31, 0x76, 0x32, 0x2d, 0x6f, 0x61, 0x65, 0x70, 0x7d, 0x7d]
  }

  /** "dl-modp{sign{dsa" */
  function DsaPrefix(): (s: seq<byte>)
    ensures |s| == 16
  {
    [0x64, 0x6c, 0x2d, 0x6d, 0x6f, 0x64, 0x70, 0x7b, 0x73, 0x69, 0x67, 0x6e, 0x7b, 0x64,
     0x73, 0x61]
  }

  /** "-nist-sha1},dh{plain}}" */
  function DsaSuffix(): (s: seq<byte>)
    ensures |s| == 22
  {
    [0x2d, 0x6e, 0x69, 0x73, 0x74, 0x2d, 0x73, 0x68, 0x61, 0x31, 0x7d, 0x2c, 0x64, 0x68,
     0x7b, 0x70, 0x6c, 0x61, 0x69, 0x6e, 0x7d, 0x7d]
  }

  /** "none" */
  function NoCipher(): (s: seq<byte>)
    ensures |s| == 4
  {
    [0x6e, 0x6f, 0x6e, 0x65]
  }

  /** "3des-cbc" */
  function TripleDes(): (s: seq<byte>)
    ensures |s| == 8
  {
    [0x33, 0x64, 0x65, 0x73, 0x2d, 0x63, 0x62, 0x63]
  }

  function KeyType(rsa: bool): (s: seq<byte>)
    ensures 16 < |s| <= 55
  {
    if rsa then RsaPrefix() + RsaSuffix() else DsaPrefix() + DsaSuffix()
  }

  function CipherType(passphrase: bool): (s: seq<byte>)
    ensures |s| <= 8
  {
    if passphrase then TripleDes() else NoCipher()
  }

  // ---------- The format ----------

  /** The integers in the order of the file. */
  function ComNumbers(k: Key): (xs: seq<seq<byte>>)
    ensures |xs| == ComCount(k.Rsa?)
  {
    match k
    case Rsa(e, n, d, p, q, iqmp) => [e, d, n, iqmp, q, p]
    case Dss(p, q, g, y, x) => [p, g, q, y, x]
  }

  function ComCount(rsa: bool): nat { if rsa then 6 else 5 }

  /** One integer: its length in bits, and no leading zero bytes. */
  function ComInt(x: seq<byte>): (s: seq<byte>)
    ensures |s| == 4 + |Trim(x)|
  {
    Be32(BitLength(x)) + Trim(x)
  }

  function ComInts(xs: seq<seq<byte>>): seq<byte> {
    if xs == [] then [] else ComInts(xs[..|xs| - 1]) + ComInt(xs[|xs| - 1])
  }

  function Zero(rsa: bool): seq<byte> { if rsa then [] else Be32(0) }

  function Payload(k: Key): seq<byte> {
    Zero(k.Rsa?) + ComInts(ComNumbers(k))
  }

  /** The part that is encrypted under a passphrase: the payload as a string, and padding. */
  function Inner(k: Key, padding: seq<byte>): seq<byte> {
    Str(Payload(k)) + padding
  }

  /** The whole key blob around the inner part. */
  function Wrapped(rsa: bool, passphrase: bool, inner: seq<byte>): seq<byte> {
    var body := Str(KeyType(rsa)) + Str(CipherType(passphrase)) + Str(inner);
    Be32(MAGIC) + Be32(8 + |body|) + body
  }

  /** -n & 7 */
  function ToEight(n: int): (m: nat)
    ensures m < 8 && (n + m) % 8 == 0
  {
    (-n) % 8
  }

  /** -(pos - (lenpos + 4)) & 7 bytes of padding when there is a passphrase. */
  function PadCount(k: Key, passphrase: bool): (n: nat)
    ensures n < 8 && (passphrase ==> (|Str(Payload(k))| + n) % 8 == 0)
  {
    if passphrase then ToEight(|Str(Payload(k))|) else 0
  }

  // ---------- Writing ----------

  /** x lies at an offset. */
  ghost predicate Holds(s: seq<byte>, at: nat, x: seq<byte>) {
    at + |x| <= |s| && s[at..at + |x|] == x
  }

  /** A write leaves behind what it wrote, and what lies elsewhere as it was. */
  lemma HoldsAfter(before: seq<byte>, after: seq<byte>, at: nat, x: seq<byte>, other: nat, y: seq<byte>)
    requires Patched(before, after, at, x)
    ensures Holds(after, at, x) && |after| == |before|
    ensures Holds(before, other, y) && (other + |y| <= at || at + |x| <= other) ==> Holds(after, other, y)
  {
  }

  lemma HoldsJoined(s: seq<byte>, at: nat, x: seq<byte>, y: seq<byte>)
    requires Holds(s, at, x) && Holds(s, at + |x|, y)
    ensures Holds(s, at, x + y)
  {
  }

  /** The loop of sshcom_write over the integers. */
  method PutInts(out: array<byte>, at: nat, xs: seq<seq<byte>>) returns (pos: nat)
    requires at + |ComInts(xs)| <= out.Length
    modifies out
    ensures pos == at + |ComInts(xs)| && Patched(old(out[..]), out[..], at, ComInts(xs))
  {
    hide Patched, Be32, BitLength, Trim;
    ghost var before := out[..];
    pos := at;
    PatchedNothing(before, at);
    for i := 0 to |xs|
      invariant pos == at + |ComInts(xs[..i])| && Patched(before, out[..], at, ComInts(xs[..i]))
    {
      ComIntsPrefix(xs, i + 1);
      assert xs[..i + 1][..i] == xs[..i];
      ghost var mid := out[..];
      var bits, kept := PutMpint(xs[i]);
      pos := PutBytes(out, pos, Be32(bits) + kept);
      PatchedTwice(before, mid, out[..], at, ComInts(xs[..i]), ComInt(xs[i]));
    }
    assert xs[..|xs|] == xs;
  }

  lemma {:induction false} ComIntsPrefix(xs: seq<seq<byte>>, i: nat)
    requires i <= |xs|
    ensures |ComInts(xs[..i])| <= |ComInts(xs)|
    decreases |xs|
  {
    hide ComInt;
    if i < |xs| {
      var init := xs[..|xs| - 1];
      ComIntsPrefix(init, i);
      assert init[..i] == xs[..i];
    } else {
      assert xs[..i] == xs;
    }
  }

  /** The size that sshcom_write allocates. */
  function Allocated(xs: seq<seq<byte>>): nat {
    if xs == [] then 512 else Allocated(xs[..|xs| - 1]) + 4 + |xs[|xs| - 1]|
  }

  method Allocate(xs: seq<seq<byte>>) returns (outlen: nat)
    ensures outlen == Allocated(xs)
  {
    outlen := 512;
    for i := 0 to |xs|
      invariant outlen == Allocated(xs[..i])
    {
      outlen := outlen + 4 + |xs[i]|;
      assert xs[..i + 1][..i] == xs[..i];
    }
    assert xs[..|xs|] == xs;
  }

  lemma {:induction false} TrimShorter(x: seq<byte>)
    ensures |Trim(x)| <= |x|
    decreases |x|
  {
    if |x| > 1 && x[0] == 0 { TrimShorter(x[1..]); }
  }

  lemma {:induction false} ComIntsFit(xs: seq<seq<byte>>)
    ensures |ComInts(xs)| + 512 <= Allocated(xs)
  {
    hide Trim, BitLength, Be32;
    if xs != [] {
      ComIntsFit(xs[..|xs| - 1]);
      TrimShorter(xs[|xs| - 1]);
    }
  }

  /** The magic number, and the names of the key type and of the cipher. */
  ghost predicate Front(s: seq<byte>, rsa: bool, passphrase: bool) {
    Holds(s, 0, Be32(MAGIC)) && Holds(s, 8, Names(rsa, passphrase))
  }

  function Names(rsa: bool, passphrase: bool): (s: seq<byte>)
    ensures |s| <= 71
  {
    Str(KeyType(rsa)) + Str(CipherType(passphrase))
  }

  lemma FrontKept(before: seq<byte>, after: seq<byte>, at: nat, x: seq<byte>, rsa: bool, passphrase: bool)
    requires Front(before, rsa, passphrase) && Patched(before, after, at, x)
    requires at >= 8 + |Names(rsa, passphrase)| || (at == 4 && |x| == 4)
    ensures Front(after, rsa, passphrase)
  {
    hide Patched, Names, Holds, Be32;
    HoldsAfter(before, after, at, x, 0, Be32(MAGIC));
    HoldsAfter(before, after, at, x, 8, Names(rsa, passphrase));
  }

  method PutFront(out: array<byte>, rsa: bool, passphrase: bool) returns (pos: nat)
    requires out.Length >= 80
    modifies out
    ensures pos == 8 + |Names(rsa, passphrase)| && Front(out[..], rsa, passphrase)
  {
    hide Patched, Holds, Be32, KeyType, CipherType, Str;
    ghost var blank := out[..];
    pos := PutBytes(out, 0, Be32(MAGIC));
    HoldsAfter(blank, out[..], 0, Be32(MAGIC), 0, []);
    ghost var first := out[..];
    pos := pos + 4;
    pos := PutBytes(out, pos, Str(KeyType(rsa)));
    HoldsAfter(first, out[..], 8, Str(KeyType(rsa)), 0, Be32(MAGIC));
    ghost var second := out[..];
    pos := PutBytes(out, pos, Str(CipherType(passphrase)));
    PatchedTwice(first, second, out[..], 8, Str(KeyType(rsa)), Str(CipherType(passphrase)));
    HoldsAfter(first, out[..], 8, Names(rsa, passphrase), 0, Be32(MAGIC));
  }

  /** The payload. */
  method PutPayload(out: array<byte>, at: nat, k: Key) returns (pos: nat)
    requires at + |Payload(k)| <= out.Length
    modifies out
    ensures pos == at + |Payload(k)| && Patched(old(out[..]), out[..], at, Payload(k))
  {
    hide Patched, Be32, ComInts;
    ghost var before := out[..];
    pos := at;
    PatchedNothing(before, at);
    if k.Dss? {
      pos := PutBytes(out, pos, Be32(0));
    }
    ghost var mid := out[..];
    pos := PutInts(out, pos, ComNumbers(k));
    PatchedTwice(before, mid, out[..], at, Zero(k.Rsa?), ComInts(ComNumbers(k)));
  }

  /** The padding loop. */
  method PutPadding(out: array<byte>, at: nat, random: seq<byte>, count: nat) returns (pos: nat)
    requires count <= |random| && at + count <= out.Length
    modifies out
    ensures pos == at + count && Patched(old(out[..]), out[..], at, random[..count])
  {
    hide Patched;
    ghost var before := out[..];
    pos := at;
    PatchedNothing(before, at);
    var padding := count;
    while padding > 0
      invariant 0 <= padding <= count && pos == at + count - padding
      invariant Patched(before, out[..], at, random[..count - padding])
    {
      ghost var mid := out[..];
      var i := count - padding;
      pos := PutBytes(out, pos, [random[i]]);
      PatchedTwice(before, mid, out[..], at, random[..i], [random[i]]);
      assert random[..i + 1] == random[..i] + [random[i]];
      padding := padding - 1;
    }
  }

  /** The payload as a string, its length written last. */
  method PutContained(out: array<byte>, lenpos: nat, k: Key, passphrase: bool) returns (pos: nat)
    requires lenpos == 8 + |Names(k.Rsa?, passphrase)| && Front(out[..], k.Rsa?, passphrase)
    requires lenpos + 8 + |Payload(k)| <= out.Length
    modifies out
    ensures Front(out[..], k.Rsa?, passphrase) && Holds(out[..], lenpos + 4, Str(Payload(k)))
    ensures pos == lenpos + 4 + |Str(Payload(k))|
  {
    hide Patched, Holds, Front, Be32, Payload, Names;
    ghost var payload, rsa := Payload(k), k.Rsa?;
    ghost var s0 := out[..];
    pos := PutPayload(out, lenpos + 8, k);
    ghost var s1 := out[..];
    FrontKept(s0, s1, lenpos + 8, payload, rsa, passphrase);
    HoldsAfter(s0, s1, lenpos + 8, payload, 0, []);
    var _ := PutBytes(out, lenpos + 4, Be32(pos - (lenpos + 8)));
    FrontKept(s1, out[..], lenpos + 4, Be32(|payload|), rsa, passphrase);
    HoldsAfter(s1, out[..], lenpos + 4, Be32(|payload|), lenpos + 8, payload);
    HoldsJoined(out[..], lenpos + 4, Be32(|payload|), payload);
  }

  /** The inner part, behind the room for its length. */
  method PutInner(out: array<byte>, lenpos: nat, k: Key, passphrase: bool, random: seq<byte>) returns (pos: nat)
    requires |random| >= 7 && lenpos == 8 + |Names(k.Rsa?, passphrase)| && Front(out[..], k.Rsa?, passphrase)
    requires lenpos + |Payload(k)| + 15 <= out.Length
    modifies out
    ensures Front(out[..], k.Rsa?, passphrase)
    ensures Holds(out[..], lenpos + 4, Inner(k, random[..PadCount(k, passphrase)]))
    ensures pos == lenpos + 4 + |Inner(k, random[..PadCount(k, passphrase)])|
  {
    hide Patched, Holds, Front, Payload, Names, PadCount, Str;
    ghost var contained := Str(Payload(k));
    pos := PutContained(out, lenpos, k, passphrase);
    ghost var before := out[..];
    var padding := if passphrase then ToEight(pos - (lenpos + 4)) else 0;
    PadCountIs(k, passphrase);
    ghost var at := pos;
    pos := PutPadding(out, pos, random, padding);
    FrontKept(before, out[..], at, random[..padding], k.Rsa?, passphrase);
    HoldsAfter(before, out[..], at, random[..padding], lenpos + 4, contained);
    HoldsJoined(out[..], lenpos + 4, contained, random[..padding]);
  }

  /** The two length fields left open before. */
  method PutLengths(out: array<byte>, lenpos: nat, pos: nat, ghost rsa: bool, ghost passphrase: bool, ghost inner: seq<byte>)
    requires lenpos == 8 + |Names(rsa, passphrase)| && Front(out[..], rsa, passphrase)
    requires Holds(out[..], lenpos + 4, inner) && pos == lenpos + 4 + |inner|
    modifies out
    ensures pos <= out.Length && out[..pos] == Wrapped(rsa, passphrase, inner)
  {
    hide Patched, Front, Be32, Names, Wrapped;
    ghost var before := out[..];
    var cipherlen := pos - (lenpos + 4);
    var _ := PutBytes(out, lenpos, Be32(cipherlen));
    ghost var mid := out[..];
    FrontKept(before, mid, lenpos, Be32(cipherlen), rsa, passphrase);
    HoldsAfter(before, mid, lenpos, Be32(cipherlen), lenpos + 4, inner);
    HoldsJoined(mid, lenpos, Be32(cipherlen), inner);
    var _ := PutBytes(out, 4, Be32(pos));
    FrontKept(mid, out[..], 4, Be32(pos), rsa, passphrase);
    HoldsAfter(mid, out[..], 4, Be32(pos), lenpos, Str(inner));
    Finished(out[..], rsa, passphrase, inner, pos);
  }

  /** sshcom_write up to the encryption. Both assertions of the source are here. */
  method Write(k: Key, passphrase: bool, random: seq<byte>) returns (out: array<byte>, pos: nat)
    requires |random| >= 7
    ensures fresh(out) && pos < out.Length
    ensures out[..pos] == Wrapped(k.Rsa?, passphrase, Inner(k, random[..PadCount(k, passphrase)]))
  {
    hide Holds, Front, Payload, Names, PadCount, Allocated, Wrapped, Inner, ComNumbers;
    var outlen := Allocate(ComNumbers(k));
    PayloadFits(k);
    out := new byte[outlen];
    var lenpos := PutFront(out, k.Rsa?, passphrase);
    pos := PutInner(out, lenpos, k, passphrase, random);
    InnerLength(k, random[..PadCount(k, passphrase)], passphrase);
    assert !passphrase || (pos - (lenpos + 4)) % 8 == 0;
    PutLengths(out, lenpos, pos, k.Rsa?, passphrase, Inner(k, random[..PadCount(k, passphrase)]));
    assert pos < outlen;
  }

  lemma InnerLength(k: Key, padding: seq<byte>, passphrase: bool)
    requires |padding| == PadCount(k, passphrase)
    ensures |Inner(k, padding)| < |Payload(k)| + 12 && (passphrase ==> |Inner(k, padding)| % 8 == 0)
  {
  }

  lemma PadCountIs(k: Key, passphrase: bool)
    ensures PadCount(k, passphrase) == if passphrase then ToEight(|Str(Payload(k))|) else 0
  {
  }

  lemma PayloadFits(k: Key)
    ensures |Payload(k)| + 508 <= Allocated(ComNumbers(k))
  {
    ComIntsFit(ComNumbers(k));
    hide ComInts, Allocated, Be32;
  }

  lemma Finished(s: seq<byte>, rsa: bool, passphrase: bool, inner: seq<byte>, pos: nat)
    requires Front(s, rsa, passphrase) && Holds(s, 4, Be32(pos))
    requires Holds(s, 8 + |Names(rsa, passphrase)|, Str(inner))
    requires pos == 8 + |Names(rsa, passphrase)| + |Str(inner)|
    ensures pos <= |s| && s[..pos] == Wrapped(rsa, passphrase, inner)
  {
    hide Holds, Be32, KeyType, CipherType, Str;
    var names := Names(rsa, passphrase);
    HoldsJoined(s, 8, names, Str(inner));
    HoldsJoined(s, 0, Be32(MAGIC), Be32(pos));
    HoldsJoined(s, 0, Be32(MAGIC) + Be32(pos), names + Str(inner));
    HoldsAll(s, Be32(MAGIC) + Be32(pos) + (names + Str(inner)));
  }

  lemma HoldsAll(s: seq<byte>, x: seq<byte>)
    requires Holds(s, 0, x)
    ensures |x| <= |s| && s[..|x|] == x
  {
  }

  // ---------- Reading ----------

  /** An mpint_pos: where an integer lies, if it was found, and how far to go on. */
  datatype Slot = Slot(found: bool, start: nat, bytes: nat, used: int)

  /** sshcom_read_mpint, for the part of a text from at to end. */
  function ReadSlot(text: seq<byte>, at: nat, end: nat): (s: Slot)
    requires end <= |text|
    ensures s.found ==> at + 4 == s.start && s.used == 4 + s.bytes && s.start + s.bytes <= end
    ensures !s.found ==> at + s.used == end
  {
    if end - at < 4 then Slot(false, 0, 0, end - at)
    else
      var bits := Be32At(text, at);
      var bytes := ((bits + 7) % 0x1_0000_0000) / 8;
      if end - at < 4 + bytes then Slot(false, 0, 0, end - at)
      else Slot(true, at + 4, bytes, bytes + 4)
  }

  /** count integers, one after the other. */
  function ReadSlots(text: seq<byte>, at: nat, end: nat, count: nat): (ss: seq<Slot>)
    requires end <= |text|
    ensures |ss| == count
    decreases count
  {
    if count == 0 then []
    else
      var s := ReadSlot(text, at, end);
      [s] + ReadSlots(text, at + s.used, end, count - 1)
  }

  /** Every integer is there, inside the text. */
  predicate AllFound(ss: seq<Slot>, end: nat) {
    forall i | 0 <= i < |ss| :: ss[i].found && ss[i].start + ss[i].bytes <= end
  }

  lemma {:induction false} MissingStays(text: seq<byte>, end: nat, count: nat)
    requires end <= |text| && count > 0
    ensures !ReadSlots(text, end, end, count)[count - 1].found
    decreases count
  {
    if count > 1 { MissingStays(text, end, count - 1); }
  }

  /** Only the last integer is looked at: that is enough. */
  lemma {:induction false} LastFound(text: seq<byte>, at: nat, end: nat, count: nat)
    requires end <= |text| && count > 0 && ReadSlots(text, at, end, count)[count - 1].found
    ensures AllFound(ReadSlots(text, at, end, count), end)
    decreases count
  {
    hide ReadSlot;
    var s := ReadSlot(text, at, end);
    var rest := ReadSlots(text, at + s.used, end, count - 1);
    assert ReadSlots(text, at, end, count) == [s] + rest;
    if count > 1 {
      if !s.found {
        MissingStays(text, end, count - 1);
        assert false;
      }
      LastFound(text, at + s.used, end, count - 1);
    }
  }

  function Found(text: seq<byte>, s: Slot): (x: seq<byte>)
    requires s.start + s.bytes <= |text|
    ensures |x| == s.bytes
  {
    text[s.start..s.start + s.bytes]
  }

  /** put_mp: a zero in front when the first byte has its top bit set. Of an integer without
      bytes, the byte looked at is the one behind it. */
  function Mp(text: seq<byte>, s: Slot): (x: seq<byte>)
    requires s.start + s.bytes < |text|
    ensures 4 <= |x| <= s.bytes + 5
  {
    if text[s.start] >= 128 then Str([0] + Found(text, s)) else Str(Found(text, s))
  }

  /** The blobs for the integers of a file: e d n u p q, or p g q y x. */
  function FromSlots(text: seq<byte>, ss: seq<Slot>, rsa: bool): (b: Blobs)
    requires |ss| == ComCount(rsa) && text != [] && AllFound(ss, |text| - 1)
  {
    if rsa then
      Blobs(Str(SSH_RSA) + Mp(text, ss[0]) + Mp(text, ss[2]),
            Str(Found(text, ss[1])) + Mp(text, ss[5]) + Mp(text, ss[4]) + Mp(text, ss[3]))
    else
      Blobs(Str(SSH_DSS) + Mp(text, ss[0]) + Mp(text, ss[2]) + Mp(text, ss[1]) + Mp(text, ss[3]), Mp(text, ss[4]))
  }

  /** The payload from at to end, in a text that goes on behind it. */
  function ReadPayload(text: seq<byte>, at: nat, end: nat, rsa: bool): Option<Blobs>
    requires at <= end < |text|
  {
    if !rsa && (end < at + 4 || Be32At(text, at) != 0) then None
    else
      var first := if rsa then at else at + 4;
      var ss := ReadSlots(text, first, end, ComCount(rsa));
      if !ss[ComCount(rsa) - 1].found then None
      else
        LastFound(text, first, end, ComCount(rsa));
        Some(FromSlots(text, ss, rsa))
  }

  /** A string of a blob, with its length in front. */
  function StringAt(blob: seq<byte>, pos: nat): (s: Option<seq<byte>>)
    ensures s.Some? ==> pos + 4 + |s.value| <= |blob| && s.value == blob[pos + 4..pos + 4 + |s.value|]
  {
    if |blob| < pos + 4 || Be32At(blob, pos) >= 0x8000_0000 || Be32At(blob, pos) > |blob| - pos - 4 then None
    else Some(blob[pos + 4..pos + 4 + Be32At(blob, pos)])
  }

  /** Some(true) for RSA, Some(false) for DSA. */
  function TypeOf(name: seq<byte>): Option<bool> {
    if |name| > 16 && name[..16] == RsaPrefix() then Some(true)
    else if |name| > 16 && name[..16] == DsaPrefix() then Some(false)
    else None
  }

  /** Whether a passphrase is needed. */
  function Encrypted(cipher: seq<byte>): Option<bool> {
    if cipher == NoCipher() then Some(false) else if cipher == TripleDes() then Some(true) else None
  }

  /** The containing string and the integers in it, with what lies behind in memory. */
  function ReadInner(inner: seq<byte>, behind: seq<byte>, rsa: bool): Option<Blobs>
    requires behind != []
  {
    if |inner| < 4 || Be32At(inner, 0) >= 0x8000_0000 || Be32At(inner, 0) > |inner| - 4 then None
    else ReadPayload(inner + behind, 4, 4 + Be32At(inner, 0), rsa)
  }

  /** The key blobs that sshcom_read finds in a key blob; decrypt keeps the length, and
      beyond is the byte in memory behind the blob, whatever it is. */
  function ReadKey(blob: seq<byte>, beyond: byte, decrypt: seq<byte> -> seq<byte>): Option<Blobs> {
    if |blob| < 4 || Be32At(blob, 0) != MAGIC then None
    else
      match StringAt(blob, 8)
      case None => None
      case Some(name) =>
        match (TypeOf(name), StringAt(blob, 12 + |name|))
        case (Some(rsa), Some(cipher)) => (
          match (Encrypted(cipher), StringAt(blob, 16 + |name| + |cipher|))
          case (Some(encrypted), Some(stored)) =>
            if stored == [] || (encrypted && |stored| % 8 != 0) then None
            else
              var end := 20 + |name| + |cipher| + |stored|;
              ReadInner(if encrypted then decrypt(stored) else stored, blob[end..] + [beyond], rsa)
          case _ => None)
        case _ => None
  }

  // ---------- Round trip ----------

  lemma {:induction false} ComIntsFront(xs: seq<seq<byte>>)
    ensures ComInts(xs) == if xs == [] then [] else ComInt(xs[0]) + ComInts(xs[1..])
  {
    hide *;
    ComIntsLast(xs);
    if |xs| > 1 {
      var init := xs[..|xs| - 1];
      ComIntsFront(init);
      var rest := xs[1..];
      ComIntsLast(rest);
      assert init[1..] == rest[..|rest| - 1] && rest[|rest| - 1] == xs[|xs| - 1] && init[0] == xs[0];
      assert ComInt(xs[0]) + (ComInts(init[1..]) + ComInt(xs[|xs| - 1]))
          == ComInt(xs[0]) + ComInts(init[1..]) + ComInt(xs[|xs| - 1]);
    } else if |xs| == 1 {
      ComIntsLast([]);
      assert xs[..0] == [] && xs[1..] == [];
    }
  }

  lemma ComIntsLast(xs: seq<seq<byte>>)
    ensures ComInts(xs) == if xs == [] then [] else ComInts(xs[..|xs| - 1]) + ComInt(xs[|xs| - 1])
  {
  }

  lemma BitLengthBound(x: seq<byte>)
    requires |x| < 0x1000_0000
    ensures BitLength(x) <= 8 * |Trim(x)| < 0x8000_0000
  {
    hide BitLength, Trim;
    TrimLength(x);
    TrimShorter(x);
  }

  lemma ReadSlotOf(left: seq<byte>, x: seq<byte>, right: seq<byte>, end: nat)
    requires |x| < 0x1000_0000 && |left| + |ComInt(x)| <= end <= |left| + |ComInt(x)| + |right|
    ensures var text := left + ComInt(x) + right;
            var s := ReadSlot(text, |left|, end);
            s == Slot(true, |left| + 4, |Trim(x)|, |ComInt(x)|) && Found(text, s) == Trim(x)
  {
    hide Be32, Be32At, BitLength, Trim;
    var text := left + ComInt(x) + right;
    assert text == left + Be32(BitLength(x)) + (Trim(x) + right);
    TrimLength(x);
    BitLengthBound(x);
    Be32RoundTrip(left, BitLength(x), Trim(x) + right);
  }

  /** The i-th integer found is the i-th one written; high is the top bit of the byte
      behind the last one. */
  ghost predicate Reads(text: seq<byte>, ss: seq<Slot>, xs: seq<seq<byte>>, high: bool) {
    && |ss| == |xs|
    && forall i | 0 <= i < |ss| :: IsAt(text, ss[i], xs[i], i + 1 == |xs| && high)
  }

  ghost predicate IsAt(text: seq<byte>, s: Slot, x: seq<byte>, high: bool) {
    && s.found && s.start + s.bytes < |text| && Found(text, s) == Trim(x)
    && (x == [] ==> (text[s.start] >= 128 <==> high))
  }

  lemma {:induction false} ReadSlotsOf(left: seq<byte>, xs: seq<seq<byte>>, right: seq<byte>)
    requires (forall i | 0 <= i < |xs| :: |xs[i]| < 0x1000_0000) && right != []
    ensures var text := left + ComInts(xs) + right;
            Reads(text, ReadSlots(text, |left|, |left| + |ComInts(xs)|, |xs|), xs, right[0] >= 128)
    decreases |xs|
  {
    hide *;
    var text := left + ComInts(xs) + right;
    var end := |left| + |ComInts(xs)|;
    ComIntsFront(xs);
    if xs == [] {
      NoReads(text, |left|, end, right[0] >= 128);
    } else {
      var rest := xs[1..];
      assert text == left + ComInt(xs[0]) + (ComInts(rest) + right);
      ReadSlotOf(left, xs[0], ComInts(rest) + right, end);
      NextByte(rest, right);
      IsAtFound(left, xs[0], ComInts(rest) + right, end, rest == [] && right[0] >= 128);
      assert text == (left + ComInt(xs[0])) + ComInts(rest) + right;
      ReadSlotsOf(left + ComInt(xs[0]), rest, right);
      ReadsMore(text, |left|, end, xs, right[0] >= 128);
    }
  }

  lemma NoReads(text: seq<byte>, at: nat, end: nat, high: bool)
    requires end <= |text|
    ensures Reads(text, ReadSlots(text, at, end, 0), [], high)
  {
  }

  lemma ReadsMore(text: seq<byte>, at: nat, end: nat, xs: seq<seq<byte>>, high: bool)
    requires end <= |text| && xs != []
    requires var s := ReadSlot(text, at, end);
             IsAt(text, s, xs[0], |xs| == 1 && high)
             && Reads(text, ReadSlots(text, at + s.used, end, |xs| - 1), xs[1..], high)
    ensures Reads(text, ReadSlots(text, at, end, |xs|), xs, high)
  {
    hide ReadSlot, IsAt;
  }

  /** What lies behind an integer: the length of the next one, whose top bit is clear, or
      what follows the last one. */
  lemma NextByte(rest: seq<seq<byte>>, right: seq<byte>)
    requires (forall i | 0 <= i < |rest| :: |rest[i]| < 0x1000_0000) && right != []
    ensures ComInts(rest) + right != []
    ensures (ComInts(rest) + right)[0] >= 128 <==> rest == [] && right[0] >= 128
  {
    hide *;
    ComIntsFront(rest);
    if rest == [] {
      assert [] + right == right;
    } else {
      ComIntFirst(rest[0]);
    }
  }

  lemma ComIntFirst(x: seq<byte>)
    requires |x| < 0x1000_0000
    ensures ComInt(x)[0] < 128
  {
    hide BitLength, Trim;
    BitLengthBound(x);
  }

  lemma IsAtFound(left: seq<byte>, x: seq<byte>, right: seq<byte>, end: nat, high: bool)
    requires |x| < 0x1000_0000 && |left| + |ComInt(x)| <= end <= |left| + |ComInt(x)| + |right|
    requires right != [] && (right[0] >= 128 <==> high)
    ensures var text := left + ComInt(x) + right;
            var s := ReadSlot(text, |left|, end);
            IsAt(text, s, x, high) && s.used == |ComInt(x)|
  {
    hide ReadSlot, Be32, BitLength;
    ReadSlotOf(left, x, right, end);
    var text := left + ComInt(x) + right;
    assert text[|left| + |ComInt(x)|] == right[0];
  }

  /** What put_mp makes of an integer: no needless zero in front, and no top bit, as
      section 5 of RFC 4251 wants it. */
  function Canon(x: seq<byte>): seq<byte> {
    var t := Trim(x);
    if t != [] && t[0] >= 128 then [0] + t else t
  }

  /** The same for the last integer of the file: without bytes, it takes its sign from the
      byte behind it. */
  function CanonLast(x: seq<byte>, next: byte): seq<byte> {
    if x == [] && next >= 128 then [0] else Canon(x)
  }

  /** What an import makes of a key; next is the byte behind the payload. The exponent d
      goes through put_string and keeps no leading zero. */
  function Imported(k: Key, next: byte): Key {
    match k
    case Rsa(e, n, d, p, q, iqmp) => Rsa(Canon(e), Canon(n), Trim(d), CanonLast(p, next), Canon(q), Canon(iqmp))
    case Dss(p, q, g, y, x) => Dss(Canon(p), Canon(q), Canon(g), Canon(y), CanonLast(x, next))
  }

  /** The same integers in the same places, if not the same bytes. */
  predicate SameValues(a: Key, b: Key) {
    match (a, b)
    case (Rsa(e, n, d, p, q, i), Rsa(e', n', d', p', q', i')) =>
      && Value(e) == Value(e') && Value(n) == Value(n') && Value(d) == Value(d')
      && Value(p) == Value(p') && Value(q) == Value(q') && Value(i) == Value(i')
    case (Dss(p, q, g, y, x), Dss(p', q', g', y', x')) =>
      && Value(p) == Value(p') && Value(q) == Value(q') && Value(g) == Value(g')
      && Value(y) == Value(y') && Value(x) == Value(x')
    case _ => false
  }

  lemma CanonValue(x: seq<byte>, next: byte)
    ensures Value(Canon(x)) == Value(x) && Value(CanonLast(x, next)) == Value(x)
  {
    hide Value, Trim;
    TrimValue(x);
    ValueFront(0, Trim(x));
    ValueOfZero();
    if x == [] { ValueOfNothing(); }
  }

  lemma ValueOfNothing()
    ensures Value([]) == 0 && Canon([]) == []
  {
  }

  /** No integer changes its value. */
  lemma ImportedValues(k: Key, next: byte)
    ensures SameValues(k, Imported(k, next))
  {
    hide Value, Trim, Canon, CanonLast;
    match k
    case Rsa(e, n, d, p, q, iqmp) =>
      CanonValue(e, next);
      CanonValue(n, next);
      TrimValue(d);
      CanonValue(p, next);
      CanonValue(q, next);
      CanonValue(iqmp, next);
    case Dss(p, q, g, y, x) =>
      CanonValue(p, next);
      CanonValue(q, next);
      CanonValue(g, next);
      CanonValue(y, next);
      CanonValue(x, next);
  }

  /** put_mp gives back the zero byte that was taken away. */
  lemma MpRestores(text: seq<byte>, s: Slot, x: seq<byte>, high: bool, next: byte)
    requires IsAt(text, s, x, high) && (high ==> next >= 128)
    ensures Mp(text, s) == Str(if high then CanonLast(x, next) else Canon(x))
  {
    hide Str;
    var t := Trim(x);
    if x != [] {
      assert t[0] == Found(text, s)[0] == text[s.start];
    } else {
      assert t == [] && [0] + Found(text, s) == [0];
    }
  }

  lemma FromSlotsOf(text: seq<byte>, ss: seq<Slot>, k: Key, next: byte)
    requires Reads(text, ss, ComNumbers(k), next >= 128) && text != [] && AllFound(ss, |text| - 1)
    ensures FromSlots(text, ss, k.Rsa?) == BlobsOf(Imported(k, next))
  {
    hide Mp, Str, Trim, Canon, CanonLast, IsAt;
    var high := next >= 128;
    match k
    case Rsa(e, n, d, p, q, iqmp) =>
      MpRestores(text, ss[0], e, false, next);
      MpRestores(text, ss[2], n, false, next);
      MpRestores(text, ss[3], iqmp, false, next);
      MpRestores(text, ss[4], q, false, next);
      assert IsAt(text, ss[5], p, high);
      MpRestores(text, ss[5], p, high, next);
      CanonLow(p, next);
      assert IsAt(text, ss[1], d, false);
      FoundAt(text, ss[1], d);
    case Dss(p, q, g, y, x) =>
      MpRestores(text, ss[0], p, false, next);
      MpRestores(text, ss[1], g, false, next);
      MpRestores(text, ss[2], q, false, next);
      MpRestores(text, ss[3], y, false, next);
      assert IsAt(text, ss[4], x, high);
      MpRestores(text, ss[4], x, high, next);
      CanonLow(x, next);
  }

  lemma CanonLow(x: seq<byte>, next: byte)
    ensures next < 128 ==> CanonLast(x, next) == Canon(x)
  {
  }

  lemma FoundAt(text: seq<byte>, s: Slot, x: seq<byte>)
    requires IsAt(text, s, x, false)
    ensures Found(text, s) == Trim(x)
  {
  }

  lemma ShortNumbers(k: Key)
    requires Short(k, 0x1000_0000)
    ensures forall i | 0 <= i < |ComNumbers(k)| :: |ComNumbers(k)[i]| < 0x1000_0000
  {
  }

  lemma AllFoundIn(text: seq<byte>, ss: seq<Slot>, xs: seq<seq<byte>>, high: bool)
    requires Reads(text, ss, xs, high) && text != []
    ensures AllFound(ss, |text| - 1)
  {
  }

  lemma ReadPayloadOf(left: seq<byte>, k: Key, right: seq<byte>)
    requires Short(k, 0x1000_0000) && right != []
    ensures var text := left + Payload(k) + right;
            ReadPayload(text, |left|, |left| + |Payload(k)|, k.Rsa?) == Some(BlobsOf(Imported(k, right[0])))
  {
    hide Be32, Be32At, ComInts, ReadSlots, FromSlots, Short, AllFound, Reads, BlobsOf, Imported;
    var xs := ComNumbers(k);
    var text := left + Payload(k) + right;
    var head := left + Zero(k.Rsa?);
    ShortNumbers(k);
    ReadSlotsOf(head, xs, right);
    assert text == head + ComInts(xs) + right;
    var ss := ReadSlots(text, |head|, |left| + |Payload(k)|, |xs|);
    AllFoundIn(text, ss, xs, right[0] >= 128);
    LastIsFound(ss, |text| - 1);
    FromSlotsOf(text, ss, k, right[0]);
    if k.Dss? {
      assert text == left + Be32(0) + (ComInts(xs) + right);
      Be32RoundTrip(left, 0, ComInts(xs) + right);
    }
  }

  lemma LastIsFound(ss: seq<Slot>, end: nat)
    requires ss != [] && AllFound(ss, end)
    ensures ss[|ss| - 1].found
  {
  }

  lemma StringAtOf(left: seq<byte>, x: seq<byte>, right: seq<byte>)
    requires |x| < 0x8000_0000
    ensures StringAt(left + Str(x) + right, |left|) == Some(x)
  {
    hide Be32, Be32At;
    var s := left + Str(x) + right;
    assert s == left + Be32(|x|) + (x + right);
    Be32RoundTrip(left, |x|, x + right);
    assert s[|left| + 4..|left| + 4 + |x|] == x;
  }

  lemma TypeOfKeyType(rsa: bool)
    ensures TypeOf(KeyType(rsa)) == Some(rsa)
  {
  }

  lemma EncryptedCipher(passphrase: bool)
    ensures Encrypted(CipherType(passphrase)) == Some(passphrase)
  {
  }

  /** Reading the wrapping leads to the stored part. */
  lemma ReadWrapped(rsa: bool, passphrase: bool, stored: seq<byte>, beyond: byte, decrypt: seq<byte> -> seq<byte>)
    requires 0 < |stored| < 0x7000_0000 && (passphrase ==> |stored| % 8 == 0)
    ensures ReadKey(Wrapped(rsa, passphrase, stored), beyond, decrypt)
         == ReadInner(if passphrase then decrypt(stored) else stored, [beyond], rsa)
  {
    hide Be32, Be32At, Str, StringAt, KeyType, CipherType, TypeOf, Encrypted, ReadInner;
    var name, cipher := KeyType(rsa), CipherType(passphrase);
    var body := Str(name) + Str(cipher) + Str(stored);
    var blob := Wrapped(rsa, passphrase, stored);
    var head := Be32(MAGIC) + Be32(8 + |body|);
    assert blob == [] + Be32(MAGIC) + (Be32(8 + |body|) + body);
    Be32RoundTrip([], MAGIC, Be32(8 + |body|) + body);
    assert blob == head + Str(name) + (Str(cipher) + Str(stored));
    StringAtOf(head, name, Str(cipher) + Str(stored));
    assert blob == (head + Str(name)) + Str(cipher) + Str(stored);
    StringAtOf(head + Str(name), cipher, Str(stored));
    assert blob == (head + Str(name) + Str(cipher)) + Str(stored) + [];
    StringAtOf(head + Str(name) + Str(cipher), stored, []);
    TypeOfKeyType(rsa);
    EncryptedCipher(passphrase);
    assert blob[|blob|..] + [beyond] == [beyond];
  }

  /** The byte behind the payload. */
  function Next(padding: seq<byte>, beyond: byte): byte {
    if padding == [] then beyond else padding[0]
  }

  lemma ReadInnerOf(k: Key, padding: seq<byte>, beyond: byte)
    requires Short(k, 0x1000_0000) && |Payload(k)| < 0x8000_0000
    ensures ReadInner(Inner(k, padding), [beyond], k.Rsa?) == Some(BlobsOf(Imported(k, Next(padding, beyond))))
  {
    hide Be32, Be32At, Payload, ReadPayload, BlobsOf, Imported, Short;
    var payload := Payload(k);
    var inner := Inner(k, padding);
    assert inner == [] + Be32(|payload|) + (payload + padding);
    Be32RoundTrip([], |payload|, payload + padding);
    ReadPayloadOf(Be32(|payload|), k, padding + [beyond]);
    assert inner + [beyond] == Be32(|payload|) + payload + (padding + [beyond]);
  }

  lemma PayloadShort(k: Key)
    requires Short(k, 0x1000_0000)
    ensures |Payload(k)| < 0x1100_0000
  {
    hide Trim, BitLength, Be32;
    match k
    case Rsa(e, n, d, p, q, iqmp) =>
      SixInts(e, d, n, iqmp, q, p);
    case Dss(p, q, g, y, x) =>
      SixInts(p, g, q, y, x, []);
      assert [p, g, q, y, x, []][..5] == [p, g, q, y, x];
  }

  lemma SixInts(a: seq<byte>, b: seq<byte>, c: seq<byte>, d: seq<byte>, e: seq<byte>, f: seq<byte>)
    ensures |ComInts([a, b, c, d, e, f])| <= 24 + |a| + |b| + |c| + |d| + |e| + |f|
  {
    hide Trim, BitLength, Be32, ComInts, Allocated;
    ComIntsFit([a, b, c, d, e, f]);
    AllocatedMore([], a);
    AllocatedMore([a], b);
    AllocatedMore([a, b], c);
    AllocatedMore([a, b, c], d);
    AllocatedMore([a, b, c, d], e);
    AllocatedMore([a, b, c, d, e], f);
    assert [] + [a] == [a];
    assert [a] + [b] == [a, b];
    assert [a, b] + [c] == [a, b, c];
    assert [a, b, c] + [d] == [a, b, c, d];
    assert [a, b, c, d] + [e] == [a, b, c, d, e];
    assert [a, b, c, d, e] + [f] == [a, b, c, d, e, f];
  }

  lemma AllocatedMore(xs: seq<seq<byte>>, x: seq<byte>)
    ensures Allocated(xs + [x]) == Allocated(xs) + 4 + |x| && Allocated([]) == 512
  {
  }

  /** Main theorem. What sshcom_write puts out, in the clear or encrypted, sshcom_read
      turns into the key blobs of the same key, every integer with its value and in its
      place. */
  lemma RoundTrip(k: Key, passphrase: bool, padding: seq<byte>, stored: seq<byte>, beyond: byte,
                  decrypt: seq<byte> -> seq<byte>)
    requires Short(k, 0x1000_0000) && |padding| == PadCount(k, passphrase)
    requires |stored| == |Inner(k, padding)|
    requires (if passphrase then decrypt(stored) else stored) == Inner(k, padding)
    ensures var k' := Imported(k, Next(padding, beyond));
            ReadKey(Wrapped(k.Rsa?, passphrase, stored), beyond, decrypt) == Some(BlobsOf(k')) && SameValues(k, k')
  {
    hide Wrapped, ReadKey, ReadInner, BlobsOf, Imported, Short, Payload, SameValues, Next;
    PayloadShort(k);
    InnerLength(k, padding, passphrase);
    ReadWrapped(k.Rsa?, passphrase, stored, beyond, decrypt);
    ReadInnerOf(k, padding, beyond);
    ImportedValues(k, Next(padding, beyond));
  }

  /** No zero in front but for a top bit, and no top bit. */
  predicate Shortest(x: seq<byte>) {
    x == [] || (x[0] < 128 && (x[0] == 0 ==> |x| == 1 || x[1] >= 128))
  }

  /** No zero in front at all. */
  predicate Plain(x: seq<byte>) { |x| <= 1 || x[0] != 0 }

  lemma CanonFixed(x: seq<byte>)
    ensures Canon(x) == x <==> Shortest(x)
    ensures Trim(x) == x <==> Plain(x)
  {
    if |x| > 1 && x[0] == 0 {
      TrimShorter(x[1..]);
      var t := Trim(x);
      assert t == Trim(x[1..]);
      if x[1] >= 128 {
        assert t == x[1..];
      } else if Canon(x) == x {
        assert t == x[1..];
      }
    }
  }

  /** Byte for byte the same blobs: exactly when every integer is in its shortest form, d has
      no zero in front, and the last one is not left to take its sign from a byte that is
      not its own. */
  lemma SameBlobs(k: Key, next: byte)
    requires Short(k, 0x1000_0000)
    ensures BlobsOf(Imported(k, next)) == BlobsOf(k)
            <==> match k
                 case Rsa(e, n, d, p, q, iqmp) =>
                   && Shortest(e) && Shortest(n) && Plain(d) && Shortest(q) && Shortest(iqmp)
                   && Shortest(p) && (p == [] ==> next < 128)
                 case Dss(p, q, g, y, x) =>
                   && Shortest(p) && Shortest(q) && Shortest(g) && Shortest(y)
                   && Shortest(x) && (x == [] ==> next < 128)
  {
    hide BlobsOf, Canon, Trim, Shortest, Plain, Parse, Be32At;
    LessShort(k);
    ImportedShort(k, next);
    ParseBlobs(k);
    ParseBlobs(Imported(k, next));
    match k
    case Rsa(e, n, d, p, q, iqmp) =>
      CanonFixed(e);
      CanonFixed(n);
      CanonFixed(d);
      CanonFixed(p);
      CanonFixed(q);
      CanonFixed(iqmp);
    case Dss(p, q, g, y, x) =>
      CanonFixed(p);
      CanonFixed(q);
      CanonFixed(g);
      CanonFixed(y);
      CanonFixed(x);
  }

  lemma CanonLength(x: seq<byte>, next: byte)
    ensures |Canon(x)| <= |x| + 1 && |CanonLast(x, next)| <= |x| + 1 && |Trim(x)| <= |x|
  {
    hide Trim;
    TrimShorter(x);
  }

  lemma ImportedShort(k: Key, next: byte)
    requires Short(k, 0x1000_0000)
    ensures Short(Imported(k, next), 0x8000_0000)
  {
    hide Trim, Canon, CanonLast;
    match k
    case Rsa(e, n, d, p, q, iqmp) =>
      CanonLength(e, next);
      CanonLength(n, next);
      CanonLength(d, next);
      CanonLength(p, next);
      CanonLength(q, next);
      CanonLength(iqmp, next);
    case Dss(p, q, g, y, x) =>
      CanonLength(p, next);
      CanonLength(q, next);
      CanonLength(g, next);
      CanonLength(y, next);
      CanonLength(x, next);
  }

  /** The buffer that sshcom_read allocates is large enough. */
  lemma BlobsFit(text: seq<byte>, at: nat, end: nat, rsa: bool)
    requires at <= end < |text|
    ensures match ReadPayload(text, at, end, rsa)
            case None => true
            case Some(b) => |b.pub| + |b.priv| <= end - at + 256 && |b.priv| > 0
  {
    hide Be32At, ReadSlots, Mp, Found, Str;
    if ReadPayload(text, at, end, rsa).Some? {
      var first := if rsa then at else at + 4;
      var ss := ReadSlots(text, first, end, ComCount(rsa));
      LastFound(text, first, end, ComCount(rsa));
      SlotsFit(text, first, end, ComCount(rsa));
      SumOf(ss);
    }
  }

  function Sum(ss: seq<Slot>): nat {
    if ss == [] then 0 else ss[0].bytes + 4 + Sum(ss[1..])
  }

  lemma SumOf(ss: seq<Slot>)
    ensures |ss| == 5 ==> Sum(ss) == 20 + ss[0].bytes + ss[1].bytes + ss[2].bytes + ss[3].bytes + ss[4].bytes
    ensures |ss| == 6 ==> Sum(ss) == 24 + ss[0].bytes + ss[1].bytes + ss[2].bytes + ss[3].bytes + ss[4].bytes + ss[5].bytes
  {
    if |ss| == 5 || |ss| == 6 {
      SumFrom(ss, 0);
      SumFrom(ss, 1);
      SumFrom(ss, 2);
      SumFrom(ss, 3);
      SumFrom(ss, 4);
      if |ss| == 6 { SumFrom(ss, 5); }
      hide Sum;
      assert ss[0..] == ss;
    }
  }

  lemma SumFrom(ss: seq<Slot>, i: nat)
    requires i < |ss|
    ensures Sum(ss[i..]) == ss[i].bytes + 4 + Sum(ss[i + 1..])
    ensures i + 1 == |ss| ==> Sum(ss[i + 1..]) == 0
  {
  }

  lemma {:induction false} SlotsFit(text: seq<byte>, at: nat, end: nat, count: nat)
    requires end <= |text| && AllFound(ReadSlots(text, at, end, count), end) && (count == 0 ==> at <= end)
    ensures at + Sum(ReadSlots(text, at, end, count)) <= end
    decreases count
  {
    hide ReadSlot;
    if count > 0 {
      var ss := ReadSlots(text, at, end, count);
      var s := ReadSlot(text, at, end);
      assert ss[0] == s && ss[1..] == ReadSlots(text, at + s.used, end, count - 1);
      SlotsFit(text, at + s.used, end, count - 1);
    }
  }

  /** sshcom_write and sshcom_read one after the other, without a passphrase. */
  method ExportImport(k: Key, beyond: byte) returns (r: Option<Blobs>)
    requires Short(k, 0x1000_0000)
    ensures r == Some(BlobsOf(Imported(k, beyond))) && SameValues(k, Imported(k, beyond))
  {
    hide Wrapped, ReadKey, BlobsOf, Imported, Short, Parse, Inner, PadCount, SameValues;
    var blobs := BlobsOf(k);
    LessShort(k);
    ParseBlobs(k);
    var parsed := Parse(blobs, k.Rsa?).value;
    var random := seq(7, _ => 0);
    var out, pos := Write(parsed, false, random);
    NoPadding(k);
    var padding := random[..PadCount(k, false)];
    r := ReadKey(out[..pos], beyond, x => x);
    RoundTrip(k, false, padding, Inner(k, padding), beyond, x => x);
  }

  lemma NoPadding(k: Key)
    ensures PadCount(k, false) == 0
  {
  }

  lemma LessShort(k: Key)
    requires Short(k, 0x1000_0000)
    ensures Short(k, 0x8000_0000)
  {
  }
}
