/** PrepareDigestTable of external/fh_loader/fh_loader.c: the list of packet
    digests is cut into a signed table and a chain of further tables, each ending
    in the hash of the next. */
module DigestTables {
  import opened Arith
  import opened Bytes

  /** Any hash with digests of 32 bytes; Sha256 in the program. */
  type Hash = h: seq<byte> -> seq<byte> | forall x :: |h(x)| == 32 ghost witness x => Zeros(32)

  /** The digest list and the size of a chained table, in bytes. A digest has 32 bytes, and
      the signed table holds 53 of them and a link. */
  datatype Plan = Plan(h: Hash, file: seq<byte>, size: nat) {

    /** Tables are whole digests, at least one and the link. */
    predicate Valid() {
      size % 32 == 0 && size >= 64 && |file| % 32 == 0
    }

    function Count(): nat { |file| / 32 }

    /** MaxNumDigestsPerTable and DigestsPerTable. */
    function Slots(): nat { size / 32 }

    function PerTable(): nat
      requires Valid()
      ensures PerTable() >= 1 && 32 * PerTable() == size - 32
    {
      Slots() - 1
    }

    /** NumTablesAfter1st */
    function Tables(): nat
      requires Valid()
    {
      if Count() >= 54 then (Count() - 53) / PerTable() + 1 else 0
    }

    /** SeekLoc of table i, and the digests found there. */
    function Seek(i: nat): nat
      requires Valid()
    {
      (53 + i * PerTable()) * 32
    }

    function Chunk(i: nat): (s: seq<byte>)
      requires Valid()
      ensures |s| <= size - 32
    {
      Fread(file, Seek(i), size - 32)
    }

    /** The read for table i stops at the end of the file. */
    predicate AtEnd(i: nat)
      requires Valid()
    {
      Seek(i) + |Chunk(i)| == |file|
    }

    /** The link that pass 1 computes for table i, from the last table backwards. */
    function Link(i: nat): (s: seq<byte>)
      requires Valid() && i < Tables()
      ensures |s| == 32
      decreases Tables() - i
    {
      h(Chunk(i) + (if i + 1 < Tables() then Link(i + 1) else []) + (if AtEnd(i) then [0] else []))
    }

    /** Table i as pass 2 writes it. */
    function Table(i: nat): seq<byte>
      requires Valid() && i < Tables()
    {
      Chunk(i) + (if i + 1 < Tables() then Link(i + 1) else [0])
    }

    /** The first k tables of ChainedTableOfDigests.bin. */
    function Chained(k: nat): seq<byte>
      requires Valid() && k <= Tables()
    {
      if k == 0 then [] else Chained(k - 1) + Table(k - 1)
    }

    /** The digests and the link of DigestsToSign.bin.mbn. */
    function SignedDigests(): seq<byte>
      requires Valid()
    {
      Fread(file, 0, 53 * 32) + (if Tables() > 0 then Link(0) else Zeros(32))
    }

    lemma SignedDigestsAre()
      requires Valid()
      ensures Tables() > 0 <==> Count() >= 54
      ensures SignedDigests() == Fread(file, 0, 53 * 32) + if Count() >= 54 then Link(0) else Zeros(32)
    {
    }

    // ---------- The shape of the tables ----------

    /** The excluded case: the digests fill the tables exactly. */
    predicate FillsExactly()
      requires Valid()
    {
      Count() >= 54 && (Count() - 53) % PerTable() == 0
    }

    /** Where the reads start: one chunk apart, the last less than a chunk before the
        end of the file, and exactly at the end in the excluded case. */
    lemma SeekShape(i: nat)
      requires Valid() && i < Tables()
      ensures Seek(i) <= |file|
      ensures i + 1 < Tables() ==> Seek(i + 1) == Seek(i) + (size - 32) && Seek(i + 1) <= |file|
      ensures i + 1 == Tables() ==> |file| < Seek(i) + (size - 32)
      ensures i + 1 == Tables() ==> (Seek(i) == |file| <==> FillsExactly())
    {
      var n, d := Count() - 53, PerTable();
      var q := n / d;
      assert n == q * d + n % d && 0 <= n % d < d;
      MulMonotone(i, q, d);
      assert (i + 1) * d == i * d + d;
      assert |file| == 32 * Count();
    }

    /** Every table but the last reads a full chunk; the last one reads the rest. The
        end of the file is met by the last table, and in the excluded case also by the
        one before it. */
    lemma ChunkShape(i: nat)
      requires Valid() && i < Tables()
      ensures Seek(i) <= |file| && (i + 1 < Tables() ==> Seek(i) + (size - 32) == Seek(i + 1) <= |file|)
      ensures Chunk(i) == file[Seek(i)..if i + 1 < Tables() then Seek(i + 1) else |file|]
      ensures AtEnd(i) <==> i + 1 == Tables() || (i + 2 == Tables() && FillsExactly())
    {
      hide Seek, FillsExactly;
      SeekShape(i);
      if i + 1 < Tables() {
        SeekShape(i + 1);
      }
    }

    /** The link computed backwards in pass 1 against the table written forwards in
        pass 2: the hash of the table, except that in the excluded case the last table
        but one is hashed with one byte more than is ever written. */
    lemma LinkIs(i: nat)
      requires Valid() && i < Tables()
      ensures Link(i) == h(Table(i) + if i + 2 == Tables() && FillsExactly() then [0] else [])
    {
      hide Chunk, FillsExactly, AtEnd, Tables;
      ChunkShape(i);
      var hashed := Chunk(i) + (if i + 1 < Tables() then Link(i + 1) else []) + (if AtEnd(i) then [0] else []);
      assert hashed == Table(i) + if i + 2 == Tables() && FillsExactly() then [0] else [];
    }

    lemma TableLength(i: nat)
      requires Valid() && i < Tables()
      ensures i + 1 < Tables() ==> |Table(i)| == size
      ensures i + 1 == Tables() ==> 1 <= |Table(i)| < size && |Table(i)| % 32 == 1
    {
      hide Chunk, FillsExactly, Seek, Tables, Valid;
      ChunkShape(i);
      SeekShape(i);
      SeekModulo32(i);
    }

    lemma SeekModulo32(i: nat)
      requires Valid() && i < Tables()
      ensures (|file| - Seek(i)) % 32 == 0 && size >= 32
    {
      hide Tables;
    }

    lemma {:induction false} ChainedLength(k: nat)
      requires Valid() && k < Tables()
      ensures |Chained(k)| == k * size
    {
      hide Table, Tables;
      if k > 0 {
        ChainedLength(k - 1);
        TableLength(k - 1);
        assert k * size == (k - 1) * size + size;
      }
    }

    lemma ChainedModulo32()
      requires Valid() && Tables() > 0
      ensures |Chained(Tables())| % 32 == 1
    {
      var last := Tables() - 1;
      MultipleOf32(last, size);
      hide Valid, Table, Tables;
      ChainedLength(last);
      TableLength(last);
      AddModulo32(last * size, |Table(last)|);
    }

    /** The exit for a chained file that would hang the target is never reached. */
    lemma NeverHangs()
      requires Valid()
      ensures !HangsTarget(|Chained(Tables())|, size)
    {
      hide *;
      SizePositive();
      if Tables() > 0 {
        ChainedModulo32();
        NotMultipleOf512(|Chained(Tables())|);
      } else {
        NothingChained();
      }
      HangsOnly512(|Chained(Tables())|, size);
    }

    lemma SizePositive()
      requires Valid()
      ensures size > 0
    {
    }

    lemma NothingChained()
      requires Valid() && Tables() == 0
      ensures |Chained(Tables())| == 0
    {
    }

    lemma ChainedNext(k: nat)
      requires Valid() && 0 < k <= Tables()
      ensures Chained(k) == Chained(k - 1) + Table(k - 1)
    {
    }

    /** Reading at the offset of table c gives exactly table c. */
    lemma {:induction false} ChainedRead(k: nat, c: nat)
      requires Valid() && c < k <= Tables()
      ensures Fread(Chained(k), c * size, size) == Table(c)
      decreases k
    {
      hide *;
      ChainedNext(k);
      ChainedLength(k - 1);
      if c == k - 1 {
        TableLength(c);
        FreadTail(Chained(c), Table(c), size);
      } else {
        MulMonotone(c, k - 1, size);
        FreadPrefix(Chained(k - 1), Table(k - 1), c * size, size);
        ChainedRead(k - 1, c);
      }
    }

    /** The tables without their links, one after the other. */
    function Unlinked(k: nat): seq<byte>
      requires Valid() && k <= Tables()
    {
      if k == 0 then [] else Unlinked(k - 1) + Chunk(k - 1)
    }

    lemma UnlinkedNext(k: nat)
      requires Valid() && 0 < k <= Tables()
      ensures Unlinked(k) == Unlinked(k - 1) + Chunk(k - 1)
    {
    }

    lemma FirstSeek()
      requires Valid() && Tables() > 0
      ensures Unlinked(0) == [] && Seek(0) == 53 * 32
    {
    }

    /** They are the digest list again, after the 53 digests of the signed table. */
    lemma {:induction false} UnlinkedIs(k: nat)
      requires Valid() && 0 < k <= Tables()
      ensures 53 * 32 <= |file|
      ensures k < Tables() ==> 53 * 32 <= Seek(k) <= |file|
      ensures Unlinked(k) == file[53 * 32..if k < Tables() then Seek(k) else |file|]
    {
      hide *;
      ChunkShape(k - 1);
      UnlinkedNext(k);
      if k > 1 {
        UnlinkedIs(k - 1);
      } else {
        FirstSeek();
      }
    }
  }

  /** A file of a multiple of 512 bytes, unless it is of whole tables. */
  predicate HangsTarget(n: nat, size: nat)
    requires size > 0
  {
    n % 512 == 0 && n % size != 0
  }

  lemma HangsOnly512(n: nat, size: nat)
    requires size > 0 && (n % 512 != 0 || n == 0)
    ensures !HangsTarget(n, size)
  {
  }

  // ---------- The two passes ----------

  /** The backup buffer holds the links of tables from..Tables()-1, 32 bytes each. */
  ghost predicate LinksStored(backup: seq<byte>, p: Plan, from: nat)
    requires p.Valid()
  {
    && 32 * p.Tables() <= |backup|
    && forall i | from <= i < p.Tables() :: backup[32 * i..32 * i + 32] == p.Link(i)
  }

  /** Storing link i in front of the stored ones. */
  lemma LinkStored(before: seq<byte>, after: seq<byte>, p: Plan, i: nat)
    requires p.Valid() && i < p.Tables() && LinksStored(before, p, i + 1)
    requires after == before[..32 * i] + p.Link(i) + before[32 * i + 32..]
    ensures LinksStored(after, p, i)
  {
    hide p.Link, p.Tables;
    forall j | i <= j < p.Tables()
      ensures after[32 * j..32 * j + 32] == p.Link(j)
    {
      if j > i {
        assert after[32 * j..32 * j + 32] == before[32 * j..32 * j + 32];
      }
    }
  }

  /** The digests at the front of the buffer, the link always at the same place. */
  method FillTable(tx: array<byte>, chunk: seq<byte>, at: nat, tempHash: seq<byte>, first: bool) returns (bytesRead: nat)
    requires |tempHash| == 32 && |chunk| <= at < tx.Length - 32 && (!first ==> |chunk| == at)
    modifies tx
    ensures bytesRead <= at + 32 && tx[..bytesRead] == chunk + if first then [] else tempHash
  {
    CopyInto(tx, 0, chunk);
    assert tx[..|chunk|] == chunk;
    CopyInto(tx, at, tempHash);
    assert tx[..|chunk|] == chunk && tx[at..at + 32] == tempHash;
    bytesRead := |chunk|;
    if !first {
      bytesRead := bytesRead + 32;
      assert tx[..at + 32] == tx[..at] + tx[at..at + 32];
    }
  }

  /** One turn of pass 1: the bytes of table loc are put together in tx and hashed. */
  method HashTable(p: Plan, loc: nat, first: bool, tempHash: seq<byte>, tx: array<byte>) returns (hash: seq<byte>)
    requires p.Valid() && loc < p.Tables() && p.size < tx.Length
    requires first <==> loc + 1 == p.Tables()
    requires |tempHash| == 32 && (!first ==> tempHash == p.Link(loc + 1))
    modifies tx
    ensures hash == p.Link(loc)
  {
    hide p.Tables, p.Chunk, p.FillsExactly, p.Valid, p.Seek;
    p.ChunkShape(loc);
    var chunk := p.Chunk(loc);
    var bytesRead := FillTable(tx, chunk, p.size - 32, tempHash, first);
    ghost var bytes := tx[..bytesRead];
    if p.Seek(loc) + |chunk| == |p.file| {
      tx[bytesRead] := 0;
      bytesRead := bytesRead + 1;
    }
    assert tx[..bytesRead] == bytes + if p.AtEnd(loc) then [0] else [];
    hash := p.h(tx[..bytesRead]);
  }

  /** Pass 1: the links, last table first. */
  method StoreLinks(p: Plan, tx: array<byte>, backup: array<byte>)
    requires p.Valid() && tx != backup
    requires p.size < tx.Length && 32 * p.Tables() <= backup.Length
    modifies tx, backup
    ensures LinksStored(backup[..], p, 0)
  {
    hide p.Tables, p.Valid, p.Link;
    var tables: int := p.Tables();
    var hashOfNextTableLoc: int := tables - 1;
    var tempHash := Zeros(32);
    for i := 0 to tables
      invariant hashOfNextTableLoc == tables - 1 - i
      invariant |tempHash| == 32 && (i > 0 ==> tempHash == p.Link(hashOfNextTableLoc + 1))
      invariant LinksStored(backup[..], p, tables - i)
    {
      tempHash := HashTable(p, hashOfNextTableLoc, i == 0, tempHash, tx);
      ghost var before := backup[..];
      CopyInto(backup, hashOfNextTableLoc * 32, tempHash);
      LinkStored(before, backup[..], p, hashOfNextTableLoc);
      hashOfNextTableLoc := hashOfNextTableLoc - 1;
    }
  }

  /** One turn of pass 2. */
  method WriteTable(p: Plan, i: nat, tx: array<byte>, backup: array<byte>) returns (out: seq<byte>)
    requires p.Valid() && i < p.Tables() && tx != backup && p.size < tx.Length
    requires LinksStored(backup[..], p, 0)
    modifies tx
    ensures out == p.Table(i)
  {
    hide p.Tables, p.Valid, p.Link, p.Chunk;
    var chunk := p.Chunk(i);
    CopyInto(tx, 0, chunk);
    assert tx[..|chunk|] == chunk;
    out := tx[..|chunk|];
    if i + 1 < p.Tables() {
      assert backup[..][32 * (i + 1)..32 * (i + 1) + 32] == p.Link(i + 1);
      out := out + backup[32 * (i + 1)..32 * (i + 1) + 32];
    } else {
      tx[0] := 0;
      out := out + tx[..1];
    }
  }

  /** Pass 2: the tables, first table first. */
  method WriteTables(p: Plan, tx: array<byte>, backup: array<byte>) returns (out: seq<byte>)
    requires p.Valid() && tx != backup && p.size < tx.Length
    requires LinksStored(backup[..], p, 0)
    modifies tx
    ensures out == p.Chained(p.Tables())
  {
    hide p.Tables, p.Valid, p.Table, LinksStored;
    out := [];
    for i := 0 to p.Tables()
      invariant out == p.Chained(i)
    {
      var table := WriteTable(p, i, tx, backup);
      out := out + table;
    }
  }

  /** The 40 bytes in front of the signed table, with its size given twice. */
  function MbnHeader(size: nat): (s: seq<byte>)
    ensures |s| == 40
  {
    Le32(0x1A) + Le32(0x03) + Le32(40) + Le32(0)
    + Le32(size) + (Le32(size) + Le32(0) + Le32(0) + Le32(0) + Le32(0))
  }

  /** DigestsToSign.bin.mbn */
  function SignedFile(p: Plan): seq<byte>
    requires p.Valid()
  {
    MbnHeader(if p.Count() >= 54 then 54 * 32 else (p.Count() + 1) * 32) + p.SignedDigests()
  }

  /** DigestsToSign.bin.mbn is written between the passes. */
  method WriteSigned(p: Plan, tx: array<byte>, backup: array<byte>) returns (out: seq<byte>)
    requires p.Valid() && tx != backup && 54 * 32 <= tx.Length && 32 <= backup.Length
    requires LinksStored(backup[..], p, 0)
    modifies tx, backup
    ensures LinksStored(backup[..], p, 0)
    ensures out == SignedFile(p)
  {
    hide p.Link, Fread, MbnHeader, Zeros, p.Tables, p.SignedDigests, LinksStored;
    var digests := Fread(p.file, 0, 53 * 32);
    CopyInto(tx, 0, digests);
    assert tx[..|digests|] == digests;
    out := MbnHeader(if p.Count() >= 54 then 54 * 32 else (p.Count() + 1) * 32);
    out := out + tx[..|digests|];
    p.SignedDigestsAre();
    if p.Count() < 54 {
      CopyInto(backup, 0, Zeros(backup.Length));
      NoLinksStored(backup[..], p);
    } else {
      FirstLinkStored(backup[..], p);
    }
    assert backup[..32] == if p.Count() >= 54 then p.Link(0) else Zeros(32);
    out := out + backup[..32];
  }

  lemma NoLinksStored(backup: seq<byte>, p: Plan)
    requires p.Valid() && p.Count() < 54
    ensures LinksStored(backup, p, 0)
  {
  }

  lemma FirstLinkStored(backup: seq<byte>, p: Plan)
    requires p.Valid() && p.Count() >= 54 && LinksStored(backup, p, 0)
    ensures p.Tables() > 0 && 32 <= |backup| && backup[..32] == p.Link(0)
  {
  }

  datatype Outcome = Exit | Written(signed: seq<byte>, chained: seq<byte>)

  /** PrepareDigestTable. The buffers are those of the program, of one megabyte: they
      must hold a table and a byte, and a link for every table. */
  method PrepareDigestTable(h: Hash, file: seq<byte>, size: nat, tx: array<byte>, backup: array<byte>)
    returns (r: Outcome)
    requires size % 32 == 0 && size >= 64 && tx != backup && size < tx.Length && 54 * 32 <= tx.Length
    requires |file| % 32 == 0 ==> 32 * (1 + Plan(h, file, size).Tables()) <= backup.Length
    modifies tx, backup
    ensures r.Exit? <==> |file| % 32 != 0
    ensures r.Written? ==> var p := Plan(h, file, size);
                           r.signed == SignedFile(p) && r.chained == p.Chained(p.Tables())
  {
    hide HangsTarget, LinksStored, SignedFile, Plan.Tables, Plan.Chained;
    if |file| % 32 > 0 {
      return Exit;
    }
    var p := Plan(h, file, size);
    StoreLinks(p, tx, backup);
    var signed := WriteSigned(p, tx, backup);
    var chained := WriteTables(p, tx, backup);
    p.NeverHangs();
    if HangsTarget(|chained|, size) {
      return Exit;
    }
    return Written(signed, chained);
  }
}
