/** Validated image programming: the loader of external/fh_loader/fh_loader.c
    must slip each digest table into the stream of packets just when the target
    has used up the one before, and knows when from two counters alone. */
module Vip {
  import opened Arith
  import opened Bytes
  import opened DigestTables

  // ---------- The target ----------

  /** The target holds the digests it still expects packets for, and the hash of the
      table that may follow them. */
  datatype Target = Unauthenticated | Checking(digests: seq<seq<byte>>, link: seq<byte>) | Rejected

  function Entries(table: seq<byte>): (es: seq<seq<byte>>)
    ensures |es| == |table| / 32
  {
    seq(|table| / 32, i requires 0 <= i < |table| / 32 => table[32 * i..32 * i + 32])
  }

  /** In a table with no free slot the last entry is the link. */
  function Load(table: seq<byte>, slots: nat): Target
    requires slots > 0
  {
    var es := Entries(table);
    if |es| == slots then Checking(es[..slots - 1], es[slots - 1]) else Checking(es, [])
  }

  /** The size of the table, from the header in front of it. */
  function LoadSigned(blob: seq<byte>): Target {
    if |blob| < 40 || |blob| < 40 + Le32At(blob, 16) then Rejected
    else Load(blob[40..40 + Le32At(blob, 16)], 54)
  }

  /** Whatever arrives is checked: against the next digest while there is one, then
      against the link. */
  function Receive(h: Hash, slots: nat, t: Target, blob: seq<byte>): Target
    requires slots > 0
  {
    match t
    case Rejected => Rejected
    case Unauthenticated => LoadSigned(blob)
    case Checking(digests, link) =>
      if digests != [] then
        if h(blob) == digests[0] then Checking(digests[1..], link) else Rejected
      else
        if h(blob) == link then Load(blob, slots) else Rejected
  }

  // ---------- The host ----------

  /** CurrentDigestLocation, digest_file_offset, the target, and whether the program
      has given up. */
  datatype Session = Session(loc: int, offset: nat, target: Target, halted: bool)

  /** NumDigestsFound, from the size of the signed file with or without signature. */
  function DigestsFound(fileSize: nat): int {
    if fileSize > 40 + 256 + 6 * 1024 then (fileSize - 40 - 256 - 6 * 1024) / 32 else (fileSize - 40) / 32
  }

  /** SendSignedDigestTable: the signed table counts as a packet, and is uncounted. */
  function Start(p: Plan, signature: seq<byte>): Session
    requires p.Valid()
  {
    var t := Receive(p.h, p.Slots(), Unauthenticated, SignedFile(p) + signature);
    Session(p.Slots() - 54, 0, t, t.Rejected?)
  }

  predicate TableDue(loc: int, slots: nat)
    requires slots > 0
  {
    (loc + 1) % slots == 0
  }

  /** TestIfWeNeedToSendDigestTable: a due table goes out, and must be taken. */
  function Tested(p: Plan, found: int, chained: seq<byte>, s: Session): Session
    requires p.Valid()
  {
    if found > 53 && TableDue(s.loc, p.Slots()) && |chained| > 0 then
      var table := Fread(chained, s.offset, p.size);
      if table == [] then s.(halted := true)
      else
        var t := Receive(p.h, p.Slots(), s.target, table);
        if t.Rejected? then Session(s.loc + 1, s.offset, t, true)
        else Session(0, s.offset + p.Slots() * 32, t, false)
    else s
  }

  /** One sendTransmitBuffer: the test, then WritePort. */
  function Send(p: Plan, found: int, chained: seq<byte>, s: Session, packet: seq<byte>): Session
    requires p.Valid()
  {
    if s.halted then s
    else
      var s' := Tested(p, found, chained, s);
      if s'.halted then s'
      else Session(s'.loc + 1, s'.offset, Receive(p.h, p.Slots(), s'.target, packet), false)
  }

  /** The digest list that the dry run records for these packets. */
  function DigestList(h: Hash, packets: seq<seq<byte>>): (file: seq<byte>)
    ensures |file| == 32 * |packets|
  {
    if packets == [] then [] else DigestList(h, packets[..|packets| - 1]) + h(packets[|packets| - 1])
  }

  lemma {:induction false} DigestListAt(h: Hash, packets: seq<seq<byte>>, k: nat)
    requires k < |packets|
    ensures DigestList(h, packets)[32 * k..32 * k + 32] == h(packets[k])
  {
    var n := |packets| - 1;
    var front := DigestList(h, packets[..n]);
    assert DigestList(h, packets) == front + h(packets[n]);
    hide DigestList;
    if k < n {
      DigestListAt(h, packets[..n], k);
      assert packets[..n][k] == packets[k];
    }
    SliceOfAppend(front, h(packets[n]), 32 * k, 32 * k + 32);
  }

  lemma SliceOfAppend(a: seq<byte>, b: seq<byte>, i: nat, j: nat)
    requires i <= j <= |a| + |b|
    ensures j <= |a| ==> (a + b)[i..j] == a[i..j]
    ensures i == |a| && j == |a| + |b| ==> (a + b)[i..j] == b
  {
  }

  // ---------- What the target reads out of a table ----------

  /** Digests a..b-1 of the list. */
  function Slice(p: Plan, a: nat, b: nat): (ds: seq<seq<byte>>)
    requires a <= b && 32 * b <= |p.file|
    ensures |ds| == b - a
  {
    seq(b - a, i requires 0 <= i < b - a => p.file[32 * (a + i)..32 * (a + i) + 32])
  }

  lemma SliceHead(p: Plan, a: nat, b: nat)
    requires a < b && 32 * b <= |p.file|
    ensures Slice(p, a, b)[0] == p.file[32 * a..32 * a + 32]
    ensures Slice(p, a, b)[1..] == Slice(p, a + 1, b)
  {
  }

  lemma EntriesAppend(x: seq<byte>, y: seq<byte>)
    requires |x| % 32 == 0
    ensures Entries(x + y) == Entries(x) + Entries(y)
  {
    var n := |x| / 32;
    assert |x| == 32 * n;
    assert |x + y| / 32 == n + |y| / 32;
    forall i | 0 <= i < n + |y| / 32
      ensures Entries(x + y)[i] == (Entries(x) + Entries(y))[i]
    {
      if i < n {
        SliceOfAppend(x, y, 32 * i, 32 * i + 32);
      } else {
        SliceBehind(x, y, 32 * (i - n), 32 * (i - n) + 32);
      }
    }
  }

  lemma SliceBehind(a: seq<byte>, b: seq<byte>, i: nat, j: nat)
    requires i <= j <= |b|
    ensures (a + b)[|a| + i..|a| + j] == b[i..j]
  {
  }

  lemma EntriesAreSlice(p: Plan, a: nat, b: nat)
    requires a <= b && 32 * b <= |p.file|
    ensures Entries(p.file[32 * a..32 * b]) == Slice(p, a, b)
  {
    hide Entries, Slice;
    var part := p.file[32 * a..32 * b];
    assert |part| == 32 * (b - a);
    forall i: nat | i < b - a
      ensures Entries(part)[i] == Slice(p, a, b)[i]
    {
      EntryAt(part, i);
      SliceAt(p, a, b, i);
      SliceOfSlice(p.file, 32 * a, 32 * b, 32 * i, 32 * i + 32);
    }
  }

  lemma EntryAt(table: seq<byte>, i: nat)
    requires i < |table| / 32
    ensures Entries(table)[i] == table[32 * i..32 * i + 32]
  {
  }

  lemma SliceAt(p: Plan, a: nat, b: nat, i: nat)
    requires a <= b && 32 * b <= |p.file| && i < b - a
    ensures Slice(p, a, b)[i] == p.file[32 * (a + i)..32 * (a + i) + 32]
  {
  }

  lemma SliceOfSlice(s: seq<byte>, a: nat, b: nat, i: nat, j: nat)
    requires a <= b <= |s| && i <= j <= b - a
    ensures s[a..b][i..j] == s[a + i..a + j]
  {
    var t := s[a..b];
    forall k | 0 <= k < j - i
      ensures t[i..j][k] == s[a + i..a + j][k]
    {
      assert t[i + k] == s[a + (i + k)];
    }
  }

  /** A single digest, and the lone padding byte of the last table. */
  lemma EntriesOfOne(x: seq<byte>)
    ensures |x| == 32 ==> Entries(x) == [x]
    ensures |x| < 32 ==> Entries(x) == []
  {
    if |x| == 32 { assert x[32 * 0..32 * 0 + 32] == x; }
  }

  /** The number of digests covered by the signed table and c chained tables. */
  function End(p: Plan, c: nat): (e: nat)
    requires p.Valid() && p.Count() >= 54 && c <= p.Tables()
    ensures 53 <= e && 32 * e <= |p.file|
  {
    if c < p.Tables() then
      p.SeekShape(c);
      53 + c * p.PerTable()
    else p.Count()
  }

  /** The hash the target expects of the next table. */
  function NextLink(p: Plan, c: nat): seq<byte>
    requires p.Valid() && c <= p.Tables()
  {
    if c < p.Tables() then p.Link(c) else []
  }

  lemma EndIsCount(p: Plan)
    requires p.Valid() && p.Count() >= 54
    ensures 32 * End(p, p.Tables()) == |p.file|
  {
  }

  lemma EndShape(p: Plan, c: nat)
    requires p.Valid() && p.Count() >= 54 && c < p.Tables()
    ensures p.Seek(c) == 32 * End(p, c)
    ensures 53 <= End(p, c) <= End(p, c + 1) <= p.Count()
    ensures c + 1 < p.Tables() ==> End(p, c + 1) == End(p, c) + p.PerTable()
    ensures c + 1 == p.Tables() ==> End(p, c + 1) < End(p, c) + p.PerTable()
    ensures c + 1 == p.Tables() ==> (End(p, c) == p.Count() <==> p.FillsExactly())
  {
  }

  /** Chained table c gives the target the next digests and the next link. */
  lemma LoadTable(p: Plan, c: nat)
    requires p.Valid() && p.Count() >= 54 && c < p.Tables()
    ensures End(p, c) <= End(p, c + 1) && 32 * End(p, c + 1) <= |p.file|
    ensures Load(p.Table(c), p.Slots()) == Checking(Slice(p, End(p, c), End(p, c + 1)), NextLink(p, c + 1))
  {
    hide p.Link, p.FillsExactly, End, Entries, Slice;
    EndShape(p, c);
    p.ChunkShape(c);
    if c + 1 < p.Tables() {
      EndShape(p, c + 1);
    } else {
      EndIsCount(p);
    }
    assert p.Chunk(c) == p.file[32 * End(p, c)..32 * End(p, c + 1)];
    EntriesAreSlice(p, End(p, c), End(p, c + 1));
    var tail := if c + 1 < p.Tables() then p.Link(c + 1) else [0];
    EntriesAppend(p.Chunk(c), tail);
    EntriesOfOne(tail);
  }

  /** The target with digest k next, after c chained tables. */
  function TargetAt(p: Plan, k: nat, c: nat): Target
    requires p.Valid() && p.Count() >= 54 && c <= p.Tables() && k <= End(p, c)
  {
    Checking(Slice(p, k, End(p, c)), NextLink(p, c))
  }

  lemma ReceivePacket(p: Plan, k: nat, c: nat, packet: seq<byte>)
    requires p.Valid() && p.Count() >= 54 && c <= p.Tables() && k < End(p, c)
    requires p.file[32 * k..32 * k + 32] == p.h(packet)
    ensures Receive(p.h, p.Slots(), TargetAt(p, k, c), packet) == TargetAt(p, k + 1, c)
  {
    hide Slice, End, NextLink, p.Valid;
    SliceHead(p, k, End(p, c));
  }

  lemma ReceiveTable(p: Plan, c: nat)
    requires p.Valid() && p.Count() >= 54 && c < p.Tables()
    ensures End(p, c) <= End(p, c + 1)
    ensures p.h(p.Table(c)) == p.Link(c) ==>
              Receive(p.h, p.Slots(), TargetAt(p, End(p, c), c), p.Table(c)) == TargetAt(p, End(p, c), c + 1)
    ensures p.h(p.Table(c)) != p.Link(c) ==>
              Receive(p.h, p.Slots(), TargetAt(p, End(p, c), c), p.Table(c)) == Rejected
  {
    hide Slice, End, p.Valid, p.Link, p.Table, Load;
    LoadTable(p, c);
  }

  // ---------- The counters ----------

  /** How many chained tables are out after k packets, d digests to a table. */
  function Loaded(k: nat, d: nat): nat
    requires d > 0
  {
    if k <= 53 then 0 else (k - 54) / d + 1
  }

  /** The value of CurrentDigestLocation after k packets. */
  function Location(k: nat, d: nat): int
    requires d > 0
  {
    if k <= 53 then d - 53 + k else (k - 54) % d + 1
  }

  /** A table is due exactly when the digests of the tables so far are used up. */
  lemma CountersStep(k: nat, d: nat)
    requires d >= 53
    ensures k <= 53 + Loaded(k, d) * d
    ensures (Location(k, d) + 1) % (d + 1) == 0 <==> k == 53 + Loaded(k, d) * d
    ensures k < 53 + Loaded(k, d) * d ==> Loaded(k + 1, d) == Loaded(k, d) && Location(k + 1, d) == Location(k, d) + 1
    ensures k == 53 + Loaded(k, d) * d ==> Loaded(k + 1, d) == Loaded(k, d) + 1 && Location(k + 1, d) == 1
  {
    if k > 53 {
      var q, r := (k - 54) / d, (k - 54) % d;
      assert k - 54 == q * d + r;
      hide Loaded, Location;
      CountersLater(k, d, q, r);
    } else if k < 53 {
      SmallNotMultiple(d - 52 + k, d + 1);
    }
  }

  lemma CountersLater(k: nat, d: nat, q: nat, r: nat)
    requires d >= 53 && k > 53 && k - 54 == q * d + r && r < d
    ensures Loaded(k, d) == q + 1 && Location(k, d) == r + 1 && k <= 53 + (q + 1) * d
    ensures (r + 2) % (d + 1) == 0 <==> k == 53 + (q + 1) * d
    ensures k < 53 + (q + 1) * d ==> Loaded(k + 1, d) == q + 1 && Location(k + 1, d) == r + 2
    ensures k == 53 + (q + 1) * d ==> Loaded(k + 1, d) == q + 2 && Location(k + 1, d) == 1
  {
    DivModUnique(k - 54, d, q, r);
    assert (q + 1) * d == q * d + d;
    if r < d - 1 {
      DivModUnique(k - 53, d, q, r + 1);
      SmallNotMultiple(r + 2, d + 1);
    } else {
      DivModUnique(k - 53, d, q + 1, 0);
    }
  }

  /** After k packets: the counters, and the target at digest k of its table. */
  ghost predicate OnTrack(p: Plan, s: Session, k: nat)
    requires p.Valid() && p.Count() >= 54
  {
    var d := p.PerTable();
    var c := Loaded(k, d);
    && c <= p.Tables()
    && k <= End(p, c)
    && s == Session(Location(k, d), c * p.size, TargetAt(p, k, c), false)
  }

  /** The table due before packet k, if one is. */
  predicate Due(p: Plan, k: nat)
    requires p.Valid()
  {
    k == 53 + Loaded(k, p.PerTable()) * p.PerTable()
  }

  /** Tables never run out before the packets do. */
  lemma DueTable(p: Plan, k: nat)
    requires p.Valid() && p.Count() >= 54 && k < p.Count() && Due(p, k)
    ensures var c := Loaded(k, p.PerTable()); c < p.Tables() && k == End(p, c)
  {
    var n, d := p.Count() - 53, p.PerTable();
    var c, q := Loaded(k, d), n / d;
    assert n == q * d + n % d;
    if c > q {
      MulMonotone(q, c, d);
    }
  }

  lemma DueIs(p: Plan, k: nat)
    requires p.Valid() && p.Slots() >= 54
    ensures TableDue(Location(k, p.PerTable()), p.Slots()) <==> Due(p, k)
    ensures var d := p.PerTable();
            var c := Loaded(k, d);
            && k <= 53 + c * d
            && Loaded(k + 1, d) == (if Due(p, k) then c + 1 else c)
            && Location(k + 1, d) == (if Due(p, k) then 1 else Location(k, d) + 1)
            && (c + 1) * p.size == c * p.size + p.Slots() * 32
  {
    hide Loaded, Location;
    CountersStep(k, p.PerTable());
  }

  /** No table due: the packet is checked against digest k, its own. */
  lemma SendPacket(p: Plan, found: int, chained: seq<byte>, s: Session, k: nat, packet: seq<byte>)
    requires p.Valid() && p.Count() >= 54 && p.Slots() >= 54 && k < p.Count()
    requires OnTrack(p, s, k) && !Due(p, k)
    requires p.file[32 * k..32 * k + 32] == p.h(packet)
    ensures OnTrack(p, Send(p, found, chained, s, packet), k + 1)
  {
    hide Loaded, Location, TargetAt, Receive, TableDue;
    var c := Loaded(k, p.PerTable());
    DueIs(p, k);
    assert k < End(p, c);
    ReceivePacket(p, k, c, packet);
  }

  /** The bytes at the offset kept for table c are table c. */
  lemma TableAtOffset(p: Plan, c: nat)
    requires p.Valid() && c < p.Tables()
    ensures var chained := p.Chained(p.Tables());
            Fread(chained, c * p.size, p.size) == p.Table(c) != [] && |chained| > 0
  {
    hide Fread, p.Table, p.Chained, p.Tables;
    p.ChainedRead(p.Tables(), c);
    p.TableLength(c);
    FreadBounded(p.Chained(p.Tables()), c * p.size, p.size);
  }

  /** A table is due: table c goes out from the offset kept for it, and the packet is
      its first. A table whose hash is not the link ends the run. */
  lemma SendTable(p: Plan, found: int, s: Session, k: nat, packet: seq<byte>)
    requires p.Valid() && p.Count() >= 54 && p.Slots() >= 54 && k < p.Count()
    requires OnTrack(p, s, k) && Due(p, k) && found > 53
    requires p.file[32 * k..32 * k + 32] == p.h(packet)
    ensures var c := Loaded(k, p.PerTable());
            var next := Send(p, found, p.Chained(p.Tables()), s, packet);
            c < p.Tables() && if p.h(p.Table(c)) == p.Link(c) then OnTrack(p, next, k + 1) else next.halted
  {
    hide Loaded, Location, TargetAt, Receive, TableDue, Fread, p.Table, p.Link, p.Chained, p.Tables, End, Due, p.PerTable;
    var c := Loaded(k, p.PerTable());
    DueIs(p, k);
    DueTable(p, k);
    TableAtOffset(p, c);
    ReceiveTable(p, c);
    if p.h(p.Table(c)) == p.Link(c) {
      EndGrows(p, c);
      TargetChecks(p, k, c + 1);
      ReceivePacket(p, k, c + 1, packet);
    }
  }

  lemma TargetChecks(p: Plan, k: nat, c: nat)
    requires p.Valid() && p.Count() >= 54 && c <= p.Tables() && k <= End(p, c)
    ensures TargetAt(p, k, c).Checking?
  {
  }

  lemma EndGrows(p: Plan, c: nat)
    requires p.Valid() && p.Count() >= 54 && c < p.Tables() && End(p, c) < p.Count()
    ensures End(p, c) < End(p, c + 1)
  {
  }

  /** The header in front of the signed table gives its size. */
  lemma HeaderSize(size: nat, rest: seq<byte>)
    requires size < 0x1_0000_0000
    ensures Le32At(MbnHeader(size) + rest, 16) == size
  {
    var left := Le32(0x1A) + Le32(0x03) + Le32(40) + Le32(0);
    var right := Le32(size) + Le32(0) + Le32(0) + Le32(0) + Le32(0);
    hide Le32, Le32At;
    assert MbnHeader(size) + rest == left + Le32(size) + (right + rest);
    Le32RoundTrip(left, size, right + rest);
  }

  /** The first table: 53 digests and the first link, or fewer and a blank entry. */
  lemma LoadSignedFile(p: Plan, signature: seq<byte>)
    requires p.Valid()
    ensures var n := if p.Count() >= 54 then 53 else p.Count();
            32 * n <= |p.file| &&
            LoadSigned(SignedFile(p) + signature)
            == if n == 53 then Checking(Slice(p, 0, 53), if p.Tables() > 0 then p.Link(0) else Zeros(32))
               else Checking(Slice(p, 0, n) + [Zeros(32)], [])
  {
    hide *;
    var n := if p.Count() >= 54 then 53 else p.Count();
    SignedBlob(p, n, signature);
    var link := if p.Count() >= 54 then p.Link(0) else Zeros(32);
    EntriesAreSlice(p, 0, n);
    LoadParts(p.file[32 * 0..32 * n], link, n);
    LoadSignedIs(SignedFile(p) + signature, p.file[32 * 0..32 * n] + link);
  }

  /** A table of 54 entries at most, loaded in two parts. */
  lemma LoadParts(x: seq<byte>, link: seq<byte>, n: nat)
    requires |x| == 32 * n && |link| == 32 && n <= 53
    ensures Load(x + link, 54) == if n == 53 then Checking(Entries(x), link) else Checking(Entries(x) + [link], [])
  {
    hide Entries;
    EntriesAppend(x, link);
    EntriesOfOne(link);
    assert n == 53 ==> (Entries(x) + [link])[..53] == Entries(x);
  }

  lemma LoadSignedIs(blob: seq<byte>, table: seq<byte>)
    requires |blob| >= 40 + |table| && Le32At(blob, 16) == |table| && blob[40..40 + |table|] == table
    ensures LoadSigned(blob) == Load(table, 54)
  {
  }

  /** The parts of the signed file. */
  lemma SignedBlob(p: Plan, n: nat, signature: seq<byte>)
    requires p.Valid() && n == if p.Count() >= 54 then 53 else p.Count()
    ensures p.Tables() > 0 <==> p.Count() >= 54
    ensures var blob := SignedFile(p) + signature;
            var link := if p.Count() >= 54 then p.Link(0) else Zeros(32);
            && 32 * n <= |p.file| && |blob| >= 40 + 32 * (n + 1)
            && Le32At(blob, 16) == 32 * (n + 1)
            && blob[40..40 + 32 * (n + 1)] == p.file[32 * 0..32 * n] + link
  {
    hide *;
    p.SignedDigestsAre();
    FirstDigests(p, n);
    SignedFileIs(p, n);
    var digests := p.SignedDigests();
    var blob := SignedFile(p) + signature;
    assert blob == MbnHeader(32 * (n + 1)) + (digests + signature);
    HeaderSize(32 * (n + 1), digests + signature);
    assert blob[40..40 + 32 * (n + 1)] == digests;
  }

  lemma FirstDigests(p: Plan, n: nat)
    requires p.Valid() && n == if p.Count() >= 54 then 53 else p.Count()
    ensures 32 * n <= |p.file| && Fread(p.file, 0, 53 * 32) == p.file[32 * 0..32 * n]
  {
  }

  lemma SignedFileIs(p: Plan, n: nat)
    requires p.Valid() && n == if p.Count() >= 54 then 53 else p.Count()
    ensures SignedFile(p) == MbnHeader(32 * (n + 1)) + p.SignedDigests()
  {
  }

  /** The whole run: tables made from these packets, and these packets sent again. */
  datatype VipRun = VipRun(h: Hash, size: nat, packets: seq<seq<byte>>, signature: seq<byte>) {

    function P(): (p: Plan)
      ensures p.h == h && p.size == size && p.Count() == |packets|
      ensures Valid() ==> p.Valid()
    {
      Plan(h, DigestList(h, packets), size)
    }

    /** Signing appends nothing, or a signature and its certificates. */
    predicate Valid() {
      size % 32 == 0 && size >= 64 && (|signature| == 0 || |signature| == 256 + 6 * 1024)
    }

    function Found(): int
      requires Valid()
    {
      DigestsFound(|SignedFile(P()) + signature|)
    }

    function ChainedFile(): seq<byte>
      requires Valid()
    {
      P().Chained(P().Tables())
    }

    function After(k: nat): Session
      requires Valid() && k <= |packets|
    {
      if k == 0 then Start(P(), signature)
      else Send(P(), Found(), ChainedFile(), After(k - 1), packets[k - 1])
    }

    /** Everything the host sent was taken. */
    predicate Accepted()
      requires Valid()
    {
      var s := After(|packets|);
      !s.halted && s.target.Checking?
    }

    /** More digests than the signed table holds, and chained tables no smaller. */
    predicate Chaining() {
      Valid() && size >= 54 * 32 && |packets| >= 54
    }

    lemma FoundIs()
      requires Valid()
      ensures Found() == if |packets| >= 54 then 54 else |packets| + 1
    {
      hide MbnHeader, Plan.Link;
    }

    lemma StartOnTrack()
      requires Chaining()
      ensures OnTrack(P(), After(0), 0)
    {
      hide SignedFile, LoadSigned, DigestList, Slice;
      LoadSignedFile(P(), signature);
    }

    /** Table c is the one its link was made for. */
    predicate Linked(c: nat)
      requires Valid() && c < P().Tables()
    {
      h(P().Table(c)) == P().Link(c)
    }

    /** One packet, with the table before it if one is due. */
    lemma StepOnTrack(k: nat)
      requires Chaining() && k < |packets| && OnTrack(P(), After(k), k)
      ensures !Due(P(), k) ==> OnTrack(P(), After(k + 1), k + 1)
      ensures Due(P(), k) ==> var c := Loaded(k, P().PerTable());
                              c < P().Tables() && if Linked(c) then OnTrack(P(), After(k + 1), k + 1)
                                                  else After(k + 1).halted
    {
      hide OnTrack, Due, Send, Start, ChainedFile, DigestList, Plan.Table, Plan.Link, Plan.Tables, Loaded;
      assert P().file[32 * k..32 * k + 32] == h(packets[k]) by { FileIs(); DigestListAt(h, packets, k); }
      FoundIs();
      if Due(P(), k) {
        SendTable(P(), Found(), After(k), k, packets[k]);
        assert ChainedFile() == P().Chained(P().Tables()) by { ChainedFileIs(); }
      } else {
        SendPacket(P(), Found(), ChainedFile(), After(k), k, packets[k]);
      }
    }

    lemma FileIs()
      ensures P().file == DigestList(h, packets)
    {
    }

    lemma ChainedFileIs()
      requires Valid()
      ensures ChainedFile() == P().Chained(P().Tables())
    {
    }

    // ---------- Whole runs ----------

    lemma StartInSigned()
      requires Valid()
      ensures InSigned(P(), After(0), 0)
    {
      hide SignedFile, LoadSigned, DigestList, Slice;
      LoadSignedFile(P(), signature);
    }

    /** As long as no table is due, the packets use up the signed table. */
    lemma {:induction false} InSignedUpTo(k: nat)
      requires Valid() && k <= |packets| && k <= 53
      requires |packets| < 54 || k <= 53 % P().Slots()
      ensures InSigned(P(), After(k), k)
    {
      hide InSigned, Send, Start, SignedFile, DigestList, TableDue;
      if k == 0 {
        StartInSigned();
      } else {
        InSignedUpTo(k - 1);
        InSignedNext(k - 1);
      }
    }

    lemma PacketDigest(k: nat)
      requires k < |packets|
      ensures 32 * k + 32 <= |P().file| && P().file[32 * k..32 * k + 32] == h(packets[k])
    {
      hide DigestList;
      DigestListAt(h, packets, k);
    }

    lemma InSignedNext(k: nat)
      requires Valid() && k < |packets| && k < 53 && InSigned(P(), After(k), k)
      requires |packets| < 54 || k < 53 % P().Slots()
      ensures InSigned(P(), After(k + 1), k + 1)
    {
      hide *;
      PacketDigest(k);
      AfterNext(k);
      InSignedLocation(P(), After(k), k);
      if |packets| < 54 {
        NoChainedFile();
      } else {
        SlotsAtLeast2();
        NotDueYet(P().Slots(), k);
      }
      SendInSigned(P(), Found(), ChainedFile(), After(k), k, packets[k]);
    }

    lemma AfterNext(k: nat)
      requires Valid() && k < |packets|
      ensures After(k + 1) == Send(P(), Found(), ChainedFile(), After(k), packets[k])
    {
    }

    lemma NoChainedFile()
      requires Valid() && |packets| < 54
      ensures ChainedFile() == []
    {
    }

    lemma SlotsAtLeast2()
      requires Valid()
      ensures P().Slots() >= 2
    {
    }

    /** Up to 53 packets need no chained table, whatever its size. */
    lemma ShortRunAccepted()
      requires Valid() && |packets| <= 53
      ensures Accepted()
    {
      hide Send, Start, SignedFile, DigestList;
      InSignedUpTo(|packets|);
    }

    /** Chained tables smaller than the signed one. */
    predicate Small() {
      Valid() && size < 54 * 32 && |packets| >= 54
    }

    /** The hash takes the first chained table for packet 53 % slots, and that packet for
        the next one. */
    predicate Coincidence()
      requires Small()
    {
      h(FirstTable()) == h(packets[Early()]) == h(packets[Early() + 1])
    }

    function FirstTable(): seq<byte>
      requires Small()
    {
      P().SignedDigestsAre();
      P().Table(0)
    }

    /** The packet before which the first chained table goes out. */
    function Early(): (k: nat)
      requires Small()
      ensures k + 1 < 53
    {
      EarlyPacket(P().Slots());
      53 % P().Slots()
    }

    /** Small tables go out too early: the target takes the first one for packet 53 % slots,
        and that packet for the next. Only a hash that cannot tell them lets the run pass. */
    lemma SmallTablesRejected()
      requires Small()
      ensures Accepted() ==> Coincidence()
    {
      hide InSigned, Send, Start, SignedFile, DigestList, TableDue, Plan.Table, Plan.Chained, After;
      var k := Early();
      NotDueYet(P().Slots(), k);
      InSignedUpTo(k);
      InSignedLocation(P(), After(k), k);
      FoundIs();
      PacketDigest(k);
      PacketDigest(k + 1);
      ChainedFileIs();
      AfterNext(k);
      SendTooEarly(P(), Found(), After(k), k, packets[k]);
      if After(k + 1).halted || After(k + 1).target.Rejected? { LostStays(k + 1, |packets|); }
    }

    /** Once the program has stopped or the target has refused something, nothing helps. */
    lemma {:induction false} LostStays(j: nat, k: nat)
      requires Valid() && j <= k <= |packets| && (After(j).halted || After(j).target.Rejected?)
      ensures After(k).halted || After(k).target.Rejected?
      decreases k
    {
      hide *;
      if j < k {
        LostStays(j, k - 1);
        AfterNext(k - 1);
        LostOnce(P(), Found(), ChainedFile(), After(k - 1), packets[k - 1]);
      }
    }

    lemma {:induction false} OnTrackUpTo(k: nat)
      requires Chaining() && k <= |packets|
      requires forall c: nat | c < Loaded(k, P().PerTable()) && c < P().Tables() :: Linked(c)
      ensures OnTrack(P(), After(k), k)
    {
      hide OnTrack, Send, Start, Plan.Tables, Linked;
      if k == 0 {
        StartOnTrack();
      } else {
        CountersStep(k - 1, P().PerTable());
        OnTrackUpTo(k - 1);
        StepOnTrack(k - 1);
      }
    }

    lemma {:induction false} HaltedStays(j: nat, k: nat)
      requires Valid() && j <= k <= |packets| && After(j).halted
      ensures After(k) == After(j)
      decreases k
    {
      hide Start, Tested, P, Found, ChainedFile;
      if j < k {
        HaltedStays(j, k - 1);
      }
    }

    /** The one table whose link can be wrong: the last but one, when the digests fill
        the tables exactly. */
    lemma LinkedWhen(c: nat)
      requires Valid() && c < P().Tables()
      ensures Linked(c) <==> !(c + 2 == P().Tables() && P().FillsExactly()) || h(P().Table(c)) == h(P().Table(c) + [0])
    {
      hide Plan.Table, Plan.Link, Plan.Tables, Plan.FillsExactly, DigestList;
      P().LinkIs(c);
      assert P().Table(c) + [] == P().Table(c);
    }

    /** The digests fill the tables exactly, and the hash tells a table from the same
        table with a zero byte after it. */
    predicate Broken()
      requires Valid()
    {
      P().FillsExactly() && P().Tables() >= 2
      && var table := P().Table(P().Tables() - 2); h(table) != h(table + [0])
    }

    lemma LastButOne()
      requires Chaining() && P().FillsExactly()
      ensures P().Tables() >= 2
      ensures var p := P(); var c := p.Tables() - 2; var k := End(p, c);
              k < |packets| && Loaded(k, p.PerTable()) == c && Due(p, k)
    {
      var p := P();
      var n, d := |packets| - 53, p.PerTable();
      var q := n / d;
      assert n == q * d;
      assert q != 0;
      var k := 53 + (q - 1) * d;
      assert k + d == |packets|;
      if q > 1 {
        assert k - 54 == (q - 2) * d + (d - 1);
        DivModUnique(k - 54, d, q - 2, d - 1);
      }
    }

    /** Main theorem. A run over chained tables is accepted as a whole exactly when it
        does not meet the excluded case. */
    lemma RunAccepted()
      requires Chaining()
      ensures Accepted() <==> !Broken()
      ensures !Broken() ==> forall k | 0 <= k <= |packets| :: OnTrack(P(), After(k), k)
    {
      hide OnTrack, Send, Start, Plan.Table, Plan.Tables, Plan.FillsExactly, Linked, DigestList, Loaded;
      var p := P();
      if !Broken() {
        forall c: nat | c < p.Tables() ensures Linked(c) { LinkedWhen(c); }
        forall k | 0 <= k <= |packets| ensures OnTrack(p, After(k), k) { OnTrackUpTo(k); }
        assert Accepted() by { OnTrackChecks(p, After(|packets|), |packets|); }
      } else {
        LastButOne();
        var c := p.Tables() - 2;
        var k := End(p, c);
        forall b: nat | b < c ensures Linked(b) { LinkedWhen(b); }
        OnTrackUpTo(k);
        LinkedWhen(c);
        StepOnTrack(k);
        HaltedStays(k + 1, |packets|);
      }
    }

    /** The hash tells apart the few things that the excluded runs hinge on. */
    predicate Telling()
      requires Valid()
    {
      && (Small() ==> !Coincidence())
      && (P().FillsExactly() && P().Tables() >= 2 ==> Broken())
    }

    /** Every run: accepted when one table is enough; with chained tables as large as the
        signed one, exactly when the run is not the broken one; with smaller ones, only by
        a coincidence of hashes. So, with a hash that tells, it depends on the sizes alone. */
    lemma Verdict()
      requires Valid()
      ensures |packets| <= 53 ==> Accepted()
      ensures Chaining() ==> (Accepted() <==> !Broken())
      ensures Small() ==> (Accepted() ==> Coincidence())
      ensures Telling() ==> (Accepted() <==> |packets| <= 53 || (size >= 54 * 32 && !P().FillsExactly()))
    {
      hide Accepted, Broken, Coincidence, Plan.FillsExactly, Plan.Tables, P;
      if |packets| <= 53 {
        ShortRunAccepted();
      } else if size < 54 * 32 {
        SmallTablesRejected();
      } else {
        RunAccepted();
        BrokenFills();
        if P().FillsExactly() { LastButOne(); }
      }
    }

    lemma BrokenFills()
      requires Valid()
      ensures Broken() ==> P().FillsExactly()
    {
      hide P, Plan.FillsExactly;
    }
  }

  /** Before any chained table: the target has digest k next in the signed table. */
  ghost predicate InSigned(p: Plan, s: Session, k: nat)
    requires p.Valid()
  {
    var m := if p.Count() >= 54 then 53 else p.Count();
    && s.loc == p.Slots() - 54 + k && s.offset == 0 && !s.halted && s.target.Checking?
    && k <= m && Slice(p, k, m) <= s.target.digests
  }

  /** With no chained table to send, the packet meets its digest. */
  lemma SendInSigned(p: Plan, found: int, chained: seq<byte>, s: Session, k: nat, packet: seq<byte>)
    requires p.Valid() && k < p.Count() && k < 53 && InSigned(p, s, k)
    requires found <= 53 || !TableDue(s.loc, p.Slots()) || chained == []
    requires p.file[32 * k..32 * k + 32] == p.h(packet)
    ensures InSigned(p, Send(p, found, chained, s, packet), k + 1)
  {
    hide Slice, TableDue, Load;
    var m := if p.Count() >= 54 then 53 else p.Count();
    SliceHead(p, k, m);
    assert s.target.digests[0] == Slice(p, k, m)[0];
  }

  lemma InSignedLocation(p: Plan, s: Session, k: nat)
    requires p.Valid() && InSigned(p, s, k)
    ensures s.loc == p.Slots() - 54 + k && k <= 53
  {
  }

  /** The packet of the signed table that a chained table goes out before. */
  lemma NotDueYet(slots: nat, j: nat)
    requires slots >= 2 && j <= 53 % slots
    ensures TableDue(slots - 54 + j, slots) <==> j == 53 % slots
  {
    var q, r := 53 / slots, 53 % slots;
    assert 53 == q * slots + r;
    if j < r {
      assert slots - 53 + j == (0 - q) * slots + (slots + j - r);
      DivModUnique(slots - 53 + j, slots, 0 - q, slots + j - r);
    } else {
      assert slots - 53 + j == (1 - q) * slots + 0;
      DivModUnique(slots - 53 + j, slots, 1 - q, 0);
    }
  }

  lemma SendTooEarly(p: Plan, found: int, s: Session, k: nat, packet: seq<byte>)
    requires p.Valid() && p.Count() >= 54 && k + 1 < 53 && InSigned(p, s, k)
    requires found > 53 && TableDue(s.loc, p.Slots())
    requires p.file[32 * k..32 * k + 32] == p.h(packet)
    ensures p.Tables() > 0
    ensures var t := Send(p, found, p.Chained(p.Tables()), s, packet);
            t.halted || t.target.Rejected?
            || (p.h(p.Table(0)) == p.h(packet) && p.h(packet) == p.file[32 * (k + 1)..32 * (k + 1) + 32])
  {
    hide Slice, TableDue, p.Table, p.Chained, Fread, Load, LoadSigned, p.Valid;
    SliceHead(p, k, 53);
    SliceHead(p, k + 1, 53);
    assert s.target.digests[0] == Slice(p, k, 53)[0] && s.target.digests[1] == Slice(p, k, 53)[1];
    assert Slice(p, k, 53)[1..][0] == Slice(p, k, 53)[1];
    TableAtOffset(p, 0);
  }

  lemma LostOnce(p: Plan, found: int, chained: seq<byte>, s: Session, packet: seq<byte>)
    requires p.Valid() && (s.halted || s.target.Rejected?)
    ensures var t := Send(p, found, chained, s, packet); t.halted || t.target.Rejected?
  {
    hide Fread, TableDue, Load, LoadSigned;
  }

  lemma EarlyPacket(slots: nat)
    requires 2 <= slots <= 53
    ensures 53 % slots + 1 < 53
  {
    if slots == 53 { assert 53 % 53 == 0; }
  }

  lemma OnTrackChecks(p: Plan, s: Session, k: nat)
    requires p.Valid() && p.Count() >= 54 && OnTrack(p, s, k)
    ensures !s.halted && s.target.Checking?
  {
  }

  // ---------- A run that is broken ----------

  /** A hash that tells lengths apart. */
  const LENGTH_HASH: Hash := (x: seq<byte>) => [|x| % 256] + Zeros(31)

  /** 106 packets and tables of 54 entries: 53 digests in the signed table and 53 in the
      only full one. The target refuses the table. */
  lemma BrokenRun()
    ensures var run := VipRun(LENGTH_HASH, 54 * 32, seq(106, _ => []), []);
            run.Chaining() && run.Broken() && !run.Accepted()
  {
    var run := VipRun(LENGTH_HASH, 54 * 32, seq(106, _ => []), []);
    hide DigestList, VipRun.Accepted, Plan.Link, Plan.Chunk;
    var p := run.P();
    assert p.PerTable() == 53 && p.FillsExactly() && p.Tables() == 2;
    LengthsTold(p.Table(0));
    run.RunAccepted();
  }

  lemma LengthsTold(x: seq<byte>)
    ensures LENGTH_HASH(x) != LENGTH_HASH(x + [0])
  {
    assert LENGTH_HASH(x)[0] == |x| % 256 && LENGTH_HASH(x + [0])[0] == (|x| + 1) % 256;
  }
}
