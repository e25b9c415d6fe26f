/** The byte format of conf_serialise and conf_deserialise in external/putty/conf.c, with
    file names and fonts as external/putty/windows/winmisc.c writes them. */
module ConfFormat {
  import opened Bytes
  import opened ConfKeys
  import opened Wrappers

  const TERMINATOR: nat := 0xFFFF_FFFF

  // ---------- Writing ----------

  /** An int as PUT_32BIT_MSB_FIRST stores it. */
  function Int32(i: int): (s: seq<byte>)
    ensures |s| == 4
  {
    Be32(i % 0x1_0000_0000)
  }

  /** toint */
  function ToInt(u: nat): int
    requires u < 0x1_0000_0000
  {
    if u < 0x8000_0000 then u else u - 0x1_0000_0000
  }

  function SubBytes(sub: Sub): seq<byte> {
    match sub
    case NoSub => []
    case IntSub(i) => Int32(i)
    case StrSub(s) => s + [0]
  }

  function ValueBytes(v: Value): seq<byte> {
    match v
    case IntValue(i) => Int32(i)
    case StrValue(s) => s + [0]
    case FileValue(path) => path + [0]
    case FontValue(name, bold, height, charset) => name + [0] + (Int32(bold) + Int32(height) + Int32(charset))
  }

  function EntryBytes(e: Entry): (s: seq<byte>)
    ensures |s| >= 4
  {
    Be32(e.key.primary) + (SubBytes(e.key.sub) + ValueBytes(e.value))
  }

  function EntriesBytes(es: seq<Entry>): seq<byte> {
    if es == [] then [] else EntriesBytes(es[..|es| - 1]) + EntryBytes(es[|es| - 1])
  }

  function Serialised(es: seq<Entry>): seq<byte> {
    EntriesBytes(es) + Be32(TERMINATOR)
  }

  // ---------- Reading ----------

  /** memchr for a zero between p and end. */
  function Memchr(data: seq<byte>, p: nat, end: nat): (z: Option<nat>)
    requires end <= |data|
    ensures z.Some? ==> p <= z.value < end && data[z.value] == 0 && forall j | p <= j < z.value :: data[j] != 0
    ensures z.None? ==> forall j | p <= j < end :: data[j] != 0
    decreases end - p
  {
    if p >= end then None
    else if data[p] == 0 then Some(p)
    else Memchr(data, p + 1, end)
  }

  function ReadInt(data: seq<byte>, p: nat): (r: Option<(int, nat)>)
    ensures r.Some? ==> p <= r.value.1 <= |data|
  {
    if |data| - p < 4 then None else Some((ToInt(Be32At(data, p)), p + 4))
  }

  function ReadStr(data: seq<byte>, p: nat): (r: Option<(seq<byte>, nat)>)
    ensures r.Some? ==> p <= r.value.1 <= |data| && IsStr(r.value.0)
  {
    match Memchr(data, p, |data|)
    case None => None
    case Some(z) => Some((data[p..z], z + 1))
  }

  /** fontspec_deserialise: three integers must be left behind the name. */
  function ReadFont(data: seq<byte>, p: nat): (r: Option<(Value, nat)>)
    ensures r.Some? ==> p <= r.value.1 <= |data|
  {
    if |data| - p < 13 then None
    else
      match Memchr(data, p, |data| - 12)
      case None => None
      case Some(z) =>
        var end := z + 1;
        Some((FontValue(data[p..z], ToInt(Be32At(data, end)), ToInt(Be32At(data, end + 4)), ToInt(Be32At(data, end + 8))),
              end + 12))
  }

  function ReadSub(t: Type, data: seq<byte>, p: nat): (r: Option<(Sub, nat)>)
    requires p <= |data|
    ensures r.Some? ==> p <= r.value.1 <= |data|
  {
    match t
    case TypeInt => (
      match ReadInt(data, p)
      case None => None
      case Some(x) => Some((IntSub(x.0), x.1)))
    case TypeStr => (
      match ReadStr(data, p)
      case None => None
      case Some(x) => Some((StrSub(x.0), x.1)))
    case _ => Some((NoSub, p))
  }

  function ReadValue(t: Type, data: seq<byte>, p: nat): (r: Option<(Value, nat)>)
    requires p <= |data|
    ensures r.Some? ==> p <= r.value.1 <= |data|
  {
    match t
    case TypeInt => (
      match ReadInt(data, p)
      case None => None
      case Some(x) => Some((IntValue(x.0), x.1)))
    case TypeStr => (
      match ReadStr(data, p)
      case None => None
      case Some(x) => Some((StrValue(x.0), x.1)))
    case TypeFilename => (
      match ReadStr(data, p)
      case None => None
      case Some(x) => Some((FileValue(x.0), x.1)))
    case TypeFont => ReadFont(data, p)
    case TypeNone => None
  }

  /** One turn of the loop of conf_deserialise: an entry, or the end of it all; and how
      far the data has been used. */
  datatype Step = Got(entry: Entry, next: nat) | Stop(next: nat)

  function ReadEntry(schema: Schema, data: seq<byte>, p: nat): (s: Step)
    requires p <= |data|
    ensures p <= s.next <= |data| && (s.Got? ==> p + 4 <= s.next)
  {
    if |data| - p < 4 then Stop(p)
    else
      var primary := Be32At(data, p);
      if primary >= |schema.subkeys| then Stop(p + 4)
      else
        match ReadSub(schema.SubkeyType(primary), data, p + 4)
        case None => Stop(p + 4)
        case Some(sub) =>
          match ReadValue(schema.ValueType(primary), data, sub.1)
          case None => Stop(sub.1)
          case Some(value) => Got(Entry(Key(primary, sub.0), value.0), value.1)
  }

  /** All entries from p on, and how far the data has been used. */
  function ReadEntries(schema: Schema, data: seq<byte>, p: nat): (r: (seq<Entry>, nat))
    requires p <= |data|
    ensures p <= r.1 <= |data|
    decreases |data| - p
  {
    match ReadEntry(schema, data, p)
    case Stop(next) => ([], next)
    case Got(e, next) =>
      var rest := ReadEntries(schema, data, next);
      ([e] + rest.0, rest.1)
  }

  // ---------- Every piece reads back, and no part of it does ----------

  lemma ReadIntOf(left: seq<byte>, i: int, right: seq<byte>)
    requires IsInt(i)
    ensures ReadInt(left + Int32(i) + right, |left|) == Some((i, |left| + 4))
  {
    hide Be32, Be32At;
    Be32RoundTrip(left, i % 0x1_0000_0000, right);
  }

  lemma ReadStrOf(left: seq<byte>, s: seq<byte>, right: seq<byte>)
    requires IsStr(s)
    ensures ReadStr(left + (s + [0]) + right, |left|) == Some((s, |left| + |s| + 1))
  {
    hide Memchr;
    var data := left + (s + [0]) + right;
    ZeroAt(left, s, right, |data|);
    assert data[|left|..|left| + |s|] == s;
  }

  lemma ZeroAt(left: seq<byte>, s: seq<byte>, right: seq<byte>, end: nat)
    requires IsStr(s) && |left| + |s| < end <= |left| + |s| + 1 + |right|
    ensures Memchr(left + (s + [0]) + right, |left|, end) == Some(|left| + |s|)
  {
    hide Memchr;
    var data := left + (s + [0]) + right;
    var z := |left| + |s|;
    assert data[z] == 0;
    assert forall j | |left| <= j < z :: data[j] == s[j - |left|];
  }

  lemma ReadFontOf(left: seq<byte>, v: Value, right: seq<byte>)
    requires v.FontValue? && v.Fits(TypeFont)
    ensures ReadFont(left + ValueBytes(v) + right, |left|) == Some((v, |left| + |ValueBytes(v)|))
  {
    hide Memchr, Int32, Be32At, ToInt, IsInt;
    var ints := Int32(v.bold) + Int32(v.height) + Int32(v.charset);
    var front := left + (v.name + [0]);
    var data := left + ValueBytes(v) + right;
    FontShape(left, v.name + [0], ints, right);
    ZeroAt(left, v.name, ints + right, |data| - 12);
    assert data[|left|..|left| + |v.name|] == v.name;
    ThreeInts(front, v.bold, v.height, v.charset, right);
  }

  lemma FontShape(left: seq<byte>, name: seq<byte>, ints: seq<byte>, right: seq<byte>)
    ensures left + (name + ints) + right == left + name + (ints + right)
    ensures left + (name + ints) + right == (left + name) + ints + right
  {
  }

  lemma ThreeInts(left: seq<byte>, i: int, j: int, k: int, right: seq<byte>)
    requires IsInt(i) && IsInt(j) && IsInt(k)
    ensures var data := left + (Int32(i) + Int32(j) + Int32(k)) + right;
            && ToInt(Be32At(data, |left|)) == i
            && ToInt(Be32At(data, |left| + 4)) == j
            && ToInt(Be32At(data, |left| + 8)) == k
  {
    hide Int32, Be32At, ToInt, IsInt;
    var a, b, c := Int32(i), Int32(j), Int32(k);
    var data := left + (a + b + c) + right;
    assert data == left + a + (b + c + right);
    IntAt(left, i, b + c + right);
    assert data == (left + a) + b + (c + right);
    IntAt(left + a, j, c + right);
    assert data == (left + a + b) + c + right;
    IntAt(left + a + b, k, right);
  }

  lemma IntAt(left: seq<byte>, i: int, right: seq<byte>)
    requires IsInt(i)
    ensures ToInt(Be32At(left + Int32(i) + right, |left|)) == i
  {
    hide Be32, Be32At;
    Be32RoundTrip(left, i % 0x1_0000_0000, right);
  }

  lemma ReadSubOf(left: seq<byte>, sub: Sub, t: Type, right: seq<byte>)
    requires sub.Fits(t)
    ensures ReadSub(t, left + SubBytes(sub) + right, |left|) == Some((sub, |left| + |SubBytes(sub)|))
  {
    hide ReadInt, ReadStr, Int32, IsStr, IsInt;
    match sub
    case NoSub =>
    case IntSub(i) => ReadIntOf(left, i, right);
    case StrSub(s) => ReadStrOf(left, s, right);
  }

  lemma ReadSubCut(left: seq<byte>, sub: Sub, t: Type, n: nat)
    requires sub.Fits(t) && n < |SubBytes(sub)|
    ensures ReadSub(t, left + SubBytes(sub)[..n], |left|).None?
  {
  }

  lemma ReadValueOf(left: seq<byte>, v: Value, t: Type, right: seq<byte>)
    requires v.Fits(t)
    ensures ReadValue(t, left + ValueBytes(v) + right, |left|) == Some((v, |left| + |ValueBytes(v)|))
  {
    hide ReadInt, ReadStr, ReadFont, Int32, IsStr, IsInt;
    match v
    case IntValue(i) => ReadIntOf(left, i, right);
    case StrValue(s) => ReadStrOf(left, s, right);
    case FileValue(path) => ReadStrOf(left, path, right);
    case FontValue(_, _, _, _) => ReadFontOf(left, v, right);
  }

  lemma ReadValueCut(left: seq<byte>, v: Value, t: Type, n: nat)
    requires v.Fits(t) && n < |ValueBytes(v)|
    ensures ReadValue(t, left + ValueBytes(v)[..n], |left|).None?
  {
  }

  lemma EntryShape(left: seq<byte>, a: seq<byte>, b: seq<byte>, c: seq<byte>, right: seq<byte>)
    ensures left + (a + (b + c)) + right == left + a + (b + c + right)
    ensures left + (a + (b + c)) + right == (left + a) + b + (c + right)
    ensures left + (a + (b + c)) + right == (left + a + b) + c + right
  {
  }

  lemma ReadEntryOf(schema: Schema, left: seq<byte>, e: Entry, right: seq<byte>)
    requires schema.Valid() && schema.TypedEntry(e)
    ensures ReadEntry(schema, left + EntryBytes(e) + right, |left|) == Got(e, |left| + |EntryBytes(e)|)
  {
    hide Be32, Be32At, SubBytes, ValueBytes, ReadSub, ReadValue;
    var a, b, c := Be32(e.key.primary), SubBytes(e.key.sub), ValueBytes(e.value);
    EntryShape(left, a, b, c, right);
    Be32RoundTrip(left, e.key.primary, b + c + right);
    ReadSubOf(left + a, e.key.sub, schema.SubkeyType(e.key.primary), c + right);
    ReadValueOf(left + a + b, e.value, schema.ValueType(e.key.primary), right);
  }

  lemma ReadEntryCut(schema: Schema, left: seq<byte>, e: Entry, n: nat)
    requires schema.Valid() && schema.TypedEntry(e) && n < |EntryBytes(e)|
    ensures ReadEntry(schema, left + EntryBytes(e)[..n], |left|).Stop?
  {
    hide Be32, Be32At, SubBytes, ValueBytes, ReadSub, ReadValue;
    var a, b, c := Be32(e.key.primary), SubBytes(e.key.sub), ValueBytes(e.value);
    var data := left + EntryBytes(e)[..n];
    if 4 <= n {
      Be32RoundTrip(left, e.key.primary, (b + c)[..n - 4]);
      assert data == left + a + (b + c)[..n - 4];
      if n - 4 < |b| {
        assert data == (left + a) + b[..n - 4];
        ReadSubCut(left + a, e.key.sub, schema.SubkeyType(e.key.primary), n - 4);
      } else {
        var m := n - 4 - |b|;
        assert data == (left + a) + b + c[..m];
        ReadSubOf(left + a, e.key.sub, schema.SubkeyType(e.key.primary), c[..m]);
        assert data == (left + a + b) + c[..m];
        ReadValueCut(left + a + b, e.value, schema.ValueType(e.key.primary), m);
      }
    }
  }

  // ---------- Whole configurations ----------

  lemma {:induction false} EntriesFront(es: seq<Entry>)
    requires es != []
    ensures EntriesBytes(es) == EntryBytes(es[0]) + EntriesBytes(es[1..])
  {
    hide EntryBytes;
    if |es| > 1 {
      var init := es[..|es| - 1];
      EntriesFront(init);
      var rest := es[1..];
      assert init[1..] == rest[..|rest| - 1] && rest[|rest| - 1] == es[|es| - 1] && init[0] == es[0];
    } else {
      assert es[..0] == [];
    }
  }

  /** How many entries lie wholly within the first n bytes. */
  function Whole(es: seq<Entry>, n: nat): (k: nat)
    ensures k <= |es|
    decreases |es|
  {
    if es == [] || |EntryBytes(es[0])| > n then 0
    else 1 + Whole(es[1..], n - |EntryBytes(es[0])|)
  }

  /** That is the greatest number of entries whose bytes are all there. */
  lemma {:induction false} WholeIsLongest(es: seq<Entry>, n: nat)
    ensures var k := Whole(es, n);
            |EntriesBytes(es[..k])| <= n && (k < |es| ==> |EntriesBytes(es[..k + 1])| > n)
    decreases |es|
  {
    hide EntryBytes;
    var k := Whole(es, n);
    if es != [] {
      if |EntryBytes(es[0])| > n {
        assert es[..1][..0] == [];
      } else {
        WholeIsLongest(es[1..], n - |EntryBytes(es[0])|);
        EntriesFront(es[..k]);
        assert es[..k][1..] == es[1..][..k - 1];
        if k < |es| {
          EntriesFront(es[..k + 1]);
          assert es[..k + 1][1..] == es[1..][..k];
        }
      }
    }
  }

  lemma ReadTerminator(schema: Schema, left: seq<byte>, n: nat)
    requires schema.Valid() && n <= 4
    ensures ReadEntry(schema, left + Be32(TERMINATOR)[..n], |left|).Stop?
    ensures n == 4 ==> ReadEntry(schema, left + Be32(TERMINATOR), |left|) == Stop(|left| + 4)
  {
  }

  /** The truncation law. Any prefix of a serialised configuration reads as the longest
      run of entries that are whole. */
  lemma {:induction false} Truncated(schema: Schema, left: seq<byte>, es: seq<Entry>, n: nat)
    requires schema.Valid() && schema.TypedEntries(es) && n <= |Serialised(es)|
    ensures ReadEntries(schema, left + Serialised(es)[..n], |left|).0 == es[..Whole(es, n)]
    decreases |es|
  {
    hide EntryBytes, ReadEntry, Be32;
    var all := Serialised(es);
    var data := left + all[..n];
    if es == [] {
      assert all == Be32(TERMINATOR);
      ReadTerminator(schema, left, n);
    } else {
      hide EntriesBytes;
      var rest := es[1..];
      var first := EntryBytes(es[0]);
      EntriesFront(es);
      assert all == first + Serialised(rest);
      if n < |first| {
        assert all[..n] == first[..n];
        ReadEntryCut(schema, left, es[0], n);
      } else {
        var m := n - |first|;
        assert data == left + first + Serialised(rest)[..m];
        ReadEntryOf(schema, left, es[0], Serialised(rest)[..m]);
        assert data == (left + first) + Serialised(rest)[..m];
        Truncated(schema, left + first, rest, m);
        assert es[..Whole(es, n)] == [es[0]] + rest[..Whole(rest, m)];
      }
    }
  }

  /** The round trip: all entries come back, and all bytes are used. */
  lemma {:induction false} ReadSerialised(schema: Schema, left: seq<byte>, es: seq<Entry>)
    requires schema.Valid() && schema.TypedEntries(es)
    ensures ReadEntries(schema, left + Serialised(es), |left|) == (es, |left| + |Serialised(es)|)
    decreases |es|
  {
    hide EntryBytes, ReadEntry, Be32;
    if es == [] {
      assert Serialised(es) == Be32(TERMINATOR);
      ReadTerminator(schema, left, 4);
    } else {
      var rest := es[1..];
      var first := EntryBytes(es[0]);
      EntriesFront(es);
      assert Serialised(es) == first + Serialised(rest);
      assert left + Serialised(es) == left + first + Serialised(rest);
      ReadEntryOf(schema, left, es[0], Serialised(rest));
      ReadSerialised(schema, left + first, rest);
      assert es == [es[0]] + rest;
    }
  }
}
