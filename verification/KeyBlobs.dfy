/** SSH-2 key blobs as PuTTY makes them: a public part and a private part, each a
    row of integers with their lengths in front. */
module KeyBlobs {
  import opened Bytes
  import opened Wrappers

  /** The integers of a key, each as the bytes of its mpint. */
  datatype Key =
    | Rsa(e: seq<byte>, n: seq<byte>, d: seq<byte>, p: seq<byte>, q: seq<byte>, iqmp: seq<byte>)
    | Dss(p: seq<byte>, q: seq<byte>, g: seq<byte>, y: seq<byte>, x: seq<byte>)

  datatype Blobs = Blobs(pub: seq<byte>, priv: seq<byte>)

  const SSH_RSA: seq<byte> := [0x73, 0x73, 0x68, 0x2d, 0x72, 0x73, 0x61]
  const SSH_DSS: seq<byte> := [0x73, 0x73, 0x68, 0x2d, 0x64, 0x73, 0x73]

  function BlobsOf(k: Key): Blobs {
    match k
    case Rsa(e, n, d, p, q, iqmp) => Blobs(Str(SSH_RSA) + Str(e) + Str(n), Str(d) + Str(p) + Str(q) + Str(iqmp))
    case Dss(p, q, g, y, x) => Blobs(Str(SSH_DSS) + Str(p) + Str(q) + Str(g) + Str(y), Str(x))
  }

  /** The integer found, if any, and how far to go on. */
  datatype Field = Field(bytes: Option<seq<byte>>, used: nat)

  /** ssh2_read_mpint at pos; after a failure everything counts as used, so that further
      reads fail as well. */
  function ReadMpint(blob: seq<byte>, pos: nat): (f: Field)
    requires pos <= |blob|
    ensures pos + f.used <= |blob|
  {
    var len := |blob| - pos;
    if len < 4 then Field(None, len)
    else
      var bytes := Be32At(blob, pos);
      if bytes >= 0x8000_0000 || len - 4 < bytes then Field(None, len)
      else Field(Some(blob[pos + 4..pos + 4 + bytes]), bytes + 4)
  }

  lemma ReadMpintOf(left: seq<byte>, x: seq<byte>, right: seq<byte>)
    requires |x| < 0x8000_0000
    ensures ReadMpint(left + Str(x) + right, |left|) == Field(Some(x), |Str(x)|)
  {
    var s := left + Str(x) + right;
    assert s == left + Be32(|x|) + (x + right);
    Be32RoundTrip(left, |x|, x + right);
    hide Be32, Be32At;
    assert s[|left| + 4..|left| + 4 + |x|] == x;
  }

  /** Every integer is short enough for the writers. */
  predicate Short(k: Key, limit: nat) {
    match k
    case Rsa(e, n, d, p, q, iqmp) => |e| + |n| + |d| + |p| + |q| + |iqmp| < limit
    case Dss(p, q, g, y, x) => |p| + |q| + |g| + |y| + |x| < limit
  }

  /** The integers read back out of the blobs of a key, as both export functions do it;
      None when one of them is missing. */
  function Parse(b: Blobs, rsa: bool): Option<Key>
    requires |b.pub| >= 4 && 4 + Be32At(b.pub, 0) <= |b.pub|
  {
    var p0 := 4 + Be32At(b.pub, 0);
    var f1 := ReadMpint(b.pub, p0);
    var f2 := ReadMpint(b.pub, p0 + f1.used);
    if rsa then
      var g1 := ReadMpint(b.priv, 0);
      var g2 := ReadMpint(b.priv, g1.used);
      var g3 := ReadMpint(b.priv, g1.used + g2.used);
      var g4 := ReadMpint(b.priv, g1.used + g2.used + g3.used);
      if f1.bytes.Some? && f2.bytes.Some? && g1.bytes.Some? && g2.bytes.Some? && g3.bytes.Some? && g4.bytes.Some? then
        Some(Rsa(f1.bytes.value, f2.bytes.value, g1.bytes.value, g2.bytes.value, g3.bytes.value, g4.bytes.value))
      else None
    else
      var f3 := ReadMpint(b.pub, p0 + f1.used + f2.used);
      var f4 := ReadMpint(b.pub, p0 + f1.used + f2.used + f3.used);
      var g1 := ReadMpint(b.priv, 0);
      if f1.bytes.Some? && f2.bytes.Some? && f3.bytes.Some? && f4.bytes.Some? && g1.bytes.Some? then
        Some(Dss(f1.bytes.value, f2.bytes.value, f3.bytes.value, f4.bytes.value, g1.bytes.value))
      else None
  }

  lemma HeadIs(x: seq<byte>, right: seq<byte>)
    requires |x| < 0x8000_0000
    ensures Be32At(Str(x) + right, 0) == |x|
  {
    assert Str(x) + right == [] + Be32(|x|) + (x + right);
    Be32RoundTrip([], |x|, x + right);
  }

  /** The parse undoes the making of the blobs: the assertions of the export functions
      never fire. */
  lemma ParseBlobs(k: Key)
    requires Short(k, 0x8000_0000)
    ensures var b := BlobsOf(k); 4 + Be32At(b.pub, 0) <= |b.pub| && Parse(b, k.Rsa?) == Some(k)
  {
    hide Str, ReadMpint, Be32At;
    match k
    case Rsa(e, n, d, p, q, iqmp) =>
      var b := BlobsOf(k);
      HeadIs(SSH_RSA, Str(e) + Str(n));
      assert b.pub == Str(SSH_RSA) + (Str(e) + Str(n));
      ReadMpintOf(Str(SSH_RSA), e, Str(n));
      ReadMpintOf(Str(SSH_RSA) + Str(e), n, []);
      assert b.pub == Str(SSH_RSA) + Str(e) + Str(n) + [];
      ReadMpintOf([], d, Str(p) + Str(q) + Str(iqmp));
      assert b.priv == [] + Str(d) + (Str(p) + Str(q) + Str(iqmp));
      ReadMpintOf(Str(d), p, Str(q) + Str(iqmp));
      assert b.priv == Str(d) + Str(p) + (Str(q) + Str(iqmp));
      ReadMpintOf(Str(d) + Str(p), q, Str(iqmp));
      ReadMpintOf(Str(d) + Str(p) + Str(q), iqmp, []);
      assert b.priv == Str(d) + Str(p) + Str(q) + Str(iqmp) + [];
    case Dss(p, q, g, y, x) =>
      var b := BlobsOf(k);
      HeadIs(SSH_DSS, Str(p) + Str(q) + Str(g) + Str(y));
      assert b.pub == Str(SSH_DSS) + (Str(p) + Str(q) + Str(g) + Str(y));
      ReadMpintOf(Str(SSH_DSS), p, Str(q) + Str(g) + Str(y));
      assert b.pub == Str(SSH_DSS) + Str(p) + (Str(q) + Str(g) + Str(y));
      ReadMpintOf(Str(SSH_DSS) + Str(p), q, Str(g) + Str(y));
      assert b.pub == Str(SSH_DSS) + Str(p) + Str(q) + (Str(g) + Str(y));
      ReadMpintOf(Str(SSH_DSS) + Str(p) + Str(q), g, Str(y));
      ReadMpintOf(Str(SSH_DSS) + Str(p) + Str(q) + Str(g), y, []);
      assert b.pub == Str(SSH_DSS) + Str(p) + Str(q) + Str(g) + Str(y) + [];
      ReadMpintOf([], x, []);
      assert b.priv == [] + Str(x) + [];
  }
}
