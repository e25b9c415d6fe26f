/** Sparse images in external/fh_loader/fh_loader.c: sparse_open splits the image
    into groups of raw data, sparse_read reads a group back in pieces of any
    size. Together they must mean what the image means, chunk by chunk. */
module Sparse {
  import opened Arith
  import opened Bytes
  import opened Wrappers

  const SPARSE_HEADER_LEN: nat := 28
  const CHUNK_HEADER_LEN: nat := 12
  const WORD: nat := 0x1_0000_0000

  // ---------- The image ----------

  /** The fields of struct sparse_header_t that are used. */
  datatype Header = Header(fileHdr: nat, chunkHdr: nat, blk: nat, totalBlks: nat, totalChunks: nat)

  function HeaderOf(file: seq<byte>): Option<Header> {
    if |file| < SPARSE_HEADER_LEN || Le32At(file, 0) != 0xed26ff3a || Le16At(file, 4) != 1 then None
    else Some(Header(Le16At(file, 8), Le16At(file, 10), Le32At(file, 12), Le32At(file, 16), Le32At(file, 20)))
  }

  /** Where the first chunk header is, and the room a chunk header takes. */
  function FirstChunk(hd: Header): nat {
    if hd.fileHdr > SPARSE_HEADER_LEN then hd.fileHdr else SPARSE_HEADER_LEN
  }

  function ChunkHeaderRoom(hd: Header): nat {
    if hd.chunkHdr > CHUNK_HEADER_LEN then hd.chunkHdr else CHUNK_HEADER_LEN
  }

  function Sectors(bytes: nat, sector: nat): nat
    requires sector > 0
  {
    bytes / sector
  }

  predicate WholeSectors(bytes: nat, sector: nat)
    requires sector > 0
  {
    bytes % sector == 0
  }

  /** A chunk: where its header and its data are, and the bytes of the image it covers,
      computed in 32 bits. */
  datatype Chunk = Chunk(raw: bool, at: nat, data: nat, blocks: nat, bytes: nat)

  /** The size of a chunk by its header. */
  function Full(hd: Header, c: Chunk): nat { c.blocks * hd.blk }

  function Next(c: Chunk): nat {
    if c.raw then c.data + c.bytes else c.data
  }

  /** The chunk whose header is at pos, if sparse_open accepts it. */
  function ChunkAt(file: seq<byte>, hd: Header, sector: nat, pos: nat): Option<Chunk>
    requires sector > 0
  {
    if |file| < pos + CHUNK_HEADER_LEN then None
    else
      var kind, blocks, total := Le16At(file, pos), Le32At(file, pos + 4), Le32At(file, pos + 8);
      var bytes := blocks * hd.blk % WORD;
      if kind == 0xCAC1 then
        if total != (hd.chunkHdr + bytes) % WORD || !WholeSectors(bytes, sector) then None
        else Some(Chunk(true, pos, pos + ChunkHeaderRoom(hd), blocks, bytes))
      else if kind == 0xCAC3 then
        if total != hd.chunkHdr || !WholeSectors(bytes, sector) then None
        else Some(Chunk(false, pos, pos + ChunkHeaderRoom(hd), blocks, bytes))
      else None
  }

  function Last<T>(s: seq<T>): T
    requires s != []
  {
    s[|s| - 1]
  }

  function Init<T>(s: seq<T>): seq<T>
    requires s != []
  {
    s[..|s| - 1]
  }

  function Position(hd: Header, cs: seq<Chunk>): nat {
    if cs == [] then FirstChunk(hd) else Next(Last(cs))
  }

  /** The first n chunks of the image. */
  function Chunks(file: seq<byte>, hd: Header, sector: nat, n: nat): (r: Option<seq<Chunk>>)
    requires sector > 0
    ensures r.Some? ==> |r.value| == n
  {
    if n == 0 then Some([])
    else
      match Chunks(file, hd, sector, n - 1)
      case None => None
      case Some(cs) =>
        match ChunkAt(file, hd, sector, Position(hd, cs))
        case None => None
        case Some(c) => Some(cs + [c])
  }

  /** Bytes of the image covered, and blocks. */
  function Covered(cs: seq<Chunk>): nat {
    if cs == [] then 0 else Covered(Init(cs)) + Last(cs).bytes
  }

  function Blocks(cs: seq<Chunk>): nat {
    if cs == [] then 0 else Blocks(Init(cs)) + Last(cs).blocks
  }

  // ---------- Groups ----------

  datatype Group = Group(fileOffset: nat, startSector: nat, bytes: nat)

  predicate EndsRaw(cs: seq<Chunk>) {
    cs != [] && Last(cs).raw
  }

  /** The groups of sparse_open: a raw chunk joins the group of the raw chunk before it. */
  function Groups(cs: seq<Chunk>, start: nat, sector: nat): (gs: seq<Group>)
    requires sector > 0
    ensures EndsRaw(cs) ==> gs != []
  {
    if cs == [] then []
    else
      var gs, c := Groups(Init(cs), start, sector), Last(cs);
      if !c.raw then gs
      else if EndsRaw(Init(cs)) then Init(gs) + [Last(gs).(bytes := Last(gs).bytes + c.bytes)]
      else gs + [Group(c.at, start + Sectors(Covered(Init(cs)), sector), c.bytes)]
  }

  datatype Opened = Exit | Opened(header: Header, groups: seq<Group>)

  /** What sparse_open makes of a file. */
  function OpenSpec(file: seq<byte>, start: nat, sector: nat): Opened
    requires sector > 0
  {
    match HeaderOf(file)
    case None => Exit
    case Some(hd) =>
      match Chunks(file, hd, sector, hd.totalChunks)
      case None => Exit
      case Some(cs) => if Blocks(cs) % WORD != hd.totalBlks then Exit else Opened(hd, Groups(cs, start, sector))
  }

  // ---------- sparse_open ----------

  const COPY_BUF_SIZE: nat := 4 * 1024 * 1024 * 1024 - 1

  /** The inner loop of sparse_open: step over the raw data, COPY_BUF_SIZE at a time. */
  method SkipRaw(length: nat, pos: nat, bytes: nat) returns (pos': nat, bytes': nat)
    ensures pos' == pos + length && bytes' == bytes + length
  {
    var rest := length;
    pos', bytes' := pos, bytes;
    while rest != 0
      invariant 0 <= rest <= length
      invariant pos' == pos + (length - rest) && bytes' == bytes + (length - rest)
    {
      var chunk := if rest > COPY_BUF_SIZE then COPY_BUF_SIZE else rest;
      pos', rest, bytes' := pos' + chunk, rest - chunk, bytes' + chunk;
    }
  }

  /** Sectors add up when every chunk is of whole sectors. */
  lemma SectorsAdd(a: nat, b: nat, sector: nat)
    requires sector > 0 && WholeSectors(a, sector) && WholeSectors(b, sector)
    ensures WholeSectors(a + b, sector) && Sectors(a + b, sector) == Sectors(a, sector) + Sectors(b, sector)
  {
    var x, y := a / sector, b / sector;
    assert a + b == (x + y) * sector + 0;
    DivModUnique(a + b, sector, x + y, 0);
  }

  lemma BlocksAdd(a: nat, b: nat)
    ensures (a % WORD + b) % WORD == (a + b) % WORD
  {
  }

  lemma ChunkShape(file: seq<byte>, hd: Header, sector: nat, pos: nat)
    requires sector > 0 && ChunkAt(file, hd, sector, pos).Some?
    ensures var c := ChunkAt(file, hd, sector, pos).value;
            c.at == pos && c.data == pos + ChunkHeaderRoom(hd) && WholeSectors(c.bytes, sector)
  {
  }

  /** What the loop of sparse_open has computed after the chunks cs. */
  datatype Scan = Scan(pos: nat, startNew: bool, current: nat, totalBlocks: nat, groups: seq<Group>)

  ghost predicate Scanned(file: seq<byte>, hd: Header, start: nat, sector: nat, cs: seq<Chunk>, s: Scan)
    requires sector > 0
  {
    && Chunks(file, hd, sector, |cs|) == Some(cs)
    && WholeSectors(Covered(cs), sector)
    && s == Scan(Position(hd, cs), !EndsRaw(cs), start + Sectors(Covered(cs), sector), Blocks(cs) % WORD,
                 Groups(cs, start, sector))
  }

  /** One turn of the loop. */
  function NextScan(s: Scan, c: Chunk, sector: nat): Scan
    requires sector > 0 && (s.startNew || s.groups != [])
  {
    Scan(Next(c), !c.raw, s.current + Sectors(c.bytes, sector), (s.totalBlocks + c.blocks) % WORD,
         if !c.raw then s.groups
         else if s.startNew then s.groups + [Group(s.pos, s.current, c.bytes)]
         else Init(s.groups) + [Last(s.groups).(bytes := Last(s.groups).bytes + c.bytes)])
  }

  lemma ScannedStep(file: seq<byte>, hd: Header, start: nat, sector: nat, cs: seq<Chunk>, s: Scan, c: Chunk)
    requires sector > 0 && Scanned(file, hd, start, sector, cs, s)
    requires ChunkAt(file, hd, sector, s.pos) == Some(c)
    ensures s.startNew || s.groups != []
    ensures Scanned(file, hd, start, sector, cs + [c], NextScan(s, c, sector))
  {
    hide ChunkAt, Sectors, WholeSectors;
    var cs' := cs + [c];
    assert Init(cs') == cs && Last(cs') == c;
    ChunkShape(file, hd, sector, s.pos);
    SectorsAdd(Covered(cs), c.bytes, sector);
    BlocksAdd(Blocks(cs), c.blocks);
  }

  lemma {:induction false} NoneStays(file: seq<byte>, hd: Header, sector: nat, n: nat, m: nat)
    requires sector > 0 && n <= m && Chunks(file, hd, sector, n).None?
    ensures Chunks(file, hd, sector, m).None?
    decreases m
  {
    if n < m {
      NoneStays(file, hd, sector, n, m - 1);
    }
  }

  lemma {:induction false} SomePrefix(file: seq<byte>, hd: Header, sector: nat, n: nat, m: nat)
    requires sector > 0 && n <= m && Chunks(file, hd, sector, m).Some?
    ensures Chunks(file, hd, sector, n) == Some(Chunks(file, hd, sector, m).value[..n])
    decreases m
  {
    hide ChunkAt;
    if n < m {
      SomePrefix(file, hd, sector, n, m - 1);
      var cs := Chunks(file, hd, sector, m).value;
      assert Init(cs) == Chunks(file, hd, sector, m - 1).value;
      assert cs[..n] == Init(cs)[..n];
    } else {
      var cs := Chunks(file, hd, sector, m).value;
      assert cs[..n] == cs;
    }
  }

  lemma ScannedEmpty(file: seq<byte>, hd: Header, start: nat, sector: nat)
    requires sector > 0
    ensures Scanned(file, hd, start, sector, [], Scan(FirstChunk(hd), true, start, 0, []))
  {
  }

  lemma NoHeader(file: seq<byte>, start: nat, sector: nat)
    requires sector > 0 && HeaderOf(file).None?
    ensures OpenSpec(file, start, sector) == Exit
  {
  }

  /** A chunk that is refused makes sparse_open exit. */
  lemma ScanFails(file: seq<byte>, hd: Header, start: nat, sector: nat, cs: seq<Chunk>, s: Scan)
    requires sector > 0 && HeaderOf(file) == Some(hd) && |cs| < hd.totalChunks
    requires Scanned(file, hd, start, sector, cs, s) && ChunkAt(file, hd, sector, s.pos).None?
    ensures OpenSpec(file, start, sector) == Exit
  {
    hide ChunkAt, HeaderOf;
    NoneStays(file, hd, sector, |cs| + 1, hd.totalChunks);
  }

  lemma ScanEnds(file: seq<byte>, hd: Header, start: nat, sector: nat, cs: seq<Chunk>, s: Scan)
    requires sector > 0 && HeaderOf(file) == Some(hd) && |cs| == hd.totalChunks
    requires Scanned(file, hd, start, sector, cs, s)
    ensures OpenSpec(file, start, sector) == if s.totalBlocks != hd.totalBlks then Exit else Opened(hd, s.groups)
  {
    hide ChunkAt, HeaderOf;
  }

  /** The RAW branch of the loop: the first raw chunk opens a group, the size of which
      then grows with every chunk stepped over. */
  method TakeRaw(groups: seq<Group>, startNew: bool, at: nat, current: nat, c: Chunk)
    returns (groups': seq<Group>, pos: nat)
    requires startNew || groups != []
    ensures pos == c.data + c.bytes
    ensures groups' == if startNew then groups + [Group(at, current, c.bytes)]
                       else Init(groups) + [Last(groups).(bytes := Last(groups).bytes + c.bytes)]
  {
    groups' := groups;
    if startNew {
      groups' := groups + [Group(at, current, 0)];
    }
    var n := |groups'| - 1;
    var bytes: nat;
    pos, bytes := SkipRaw(c.bytes, c.data, groups'[n].bytes);
    groups' := groups'[n := groups'[n].(bytes := bytes)];
  }

  /** sparse_open. Every ExitAndShowLog is the result Exit. */
  method SparseOpen(file: seq<byte>, start: nat, sector: nat) returns (r: Opened)
    requires sector > 0
    ensures r == OpenSpec(file, start, sector)
  {
    hide HeaderOf, ChunkAt, Sectors, Scanned, OpenSpec, FirstChunk;
    if HeaderOf(file).None? {
      NoHeader(file, start, sector);
      return Exit;
    }
    var hd := HeaderOf(file).value;
    var pos := FirstChunk(hd);
    var startNew := true;
    var current: nat := start;
    var totalBlocks: nat := 0;
    var groups: seq<Group> := [];
    ghost var cs: seq<Chunk> := [];
    ScannedEmpty(file, hd, start, sector);
    for i := 0 to hd.totalChunks
      invariant |cs| == i && Scanned(file, hd, start, sector, cs, Scan(pos, startNew, current, totalBlocks, groups))
    {
      ghost var s := Scan(pos, startNew, current, totalBlocks, groups);
      var next := ChunkAt(file, hd, sector, pos);
      if next.None? {
        ScanFails(file, hd, start, sector, cs, s);
        return Exit;
      }
      var c := next.value;
      ScannedStep(file, hd, start, sector, cs, s, c);
      if c.raw {
        groups, pos := TakeRaw(groups, startNew, pos, current, c);
        startNew := false;
      } else {
        startNew := true;
        pos := c.data;
      }
      current := current + Sectors(c.bytes, sector);
      totalBlocks := (totalBlocks + c.blocks) % WORD;
      assert Scan(pos, startNew, current, totalBlocks, groups) == NextScan(s, c, sector);
      cs := cs + [c];
    }
    ScanEnds(file, hd, start, sector, cs, Scan(pos, startNew, current, totalBlocks, groups));
    if hd.totalBlks != totalBlocks {
      return Exit;
    }
    return Opened(hd, groups);
  }

  // ---------- Runs ----------

  /** The bytes of a raw chunk, as far as the file has them. */
  function Payload(file: seq<byte>, c: Chunk): seq<byte> {
    if c.raw then Fread(file, c.data, c.bytes) else []
  }

  /** A raw chunk whose data is all there. */
  predicate Whole(file: seq<byte>, c: Chunk) {
    c.raw && c.bytes > 0 ==> c.data + c.bytes <= |file|
  }

  /** The raw data of consecutive chunks. */
  function Data(file: seq<byte>, cs: seq<Chunk>): seq<byte> {
    if cs == [] then [] else Data(file, Init(cs)) + Payload(file, Last(cs))
  }

  /** A maximal run of raw chunks: the number of chunks before it, the bytes that they cover
      for sparse_open, and its chunks. */
  datatype Run = Run(first: nat, start: nat, chunks: seq<Chunk>)

  function Runs(cs: seq<Chunk>): (rs: seq<Run>)
    ensures EndsRaw(cs) ==> rs != []
    ensures forall k | 0 <= k < |rs| :: rs[k].chunks != []
  {
    if cs == [] then []
    else
      var rs, c := Runs(Init(cs)), Last(cs);
      if !c.raw then rs
      else if EndsRaw(Init(cs)) then Init(rs) + [Last(rs).(chunks := Last(rs).chunks + [c])]
      else rs + [Run(|cs| - 1, Covered(Init(cs)), [c])]
  }

  /** A run as sparse_open describes it. */
  function GroupOf(r: Run, start: nat, sector: nat): Group
    requires sector > 0 && r.chunks != []
  {
    Group(r.chunks[0].at, start + Sectors(r.start, sector), Covered(r.chunks))
  }

  lemma CoveredAppend(cs: seq<Chunk>, c: Chunk)
    ensures Covered(cs + [c]) == Covered(cs) + c.bytes
  {
  }

  ghost predicate Described(rs: seq<Run>, gs: seq<Group>, start: nat, sector: nat)
    requires sector > 0
  {
    |gs| == |rs| && forall k | 0 <= k < |rs| :: rs[k].chunks != [] && gs[k] == GroupOf(rs[k], start, sector)
  }

  lemma DescribedAppend(rs: seq<Run>, gs: seq<Group>, r: Run, start: nat, sector: nat)
    requires sector > 0 && r.chunks != [] && Described(rs, gs, start, sector)
    ensures Described(rs + [r], gs + [GroupOf(r, start, sector)], start, sector)
  {
  }

  lemma DescribedInit(rs: seq<Run>, gs: seq<Group>, start: nat, sector: nat)
    requires sector > 0 && rs != [] && Described(rs, gs, start, sector)
    ensures gs != [] && Described(Init(rs), Init(gs), start, sector)
    ensures Last(rs).chunks != [] && Last(gs) == GroupOf(Last(rs), start, sector)
  {
  }

  /** A raw chunk joins the last run as it joins the last group. */
  lemma GroupOfExtended(r: Run, c: Chunk, start: nat, sector: nat)
    requires sector > 0 && r.chunks != []
    ensures var g := GroupOf(r, start, sector);
            GroupOf(r.(chunks := r.chunks + [c]), start, sector) == g.(bytes := g.bytes + c.bytes)
  {
  }

  /** The groups are the runs, in order. */
  lemma {:induction false} GroupsAreRuns(cs: seq<Chunk>, start: nat, sector: nat)
    requires sector > 0
    ensures Described(Runs(cs), Groups(cs, start, sector), start, sector)
  {
    hide Sectors, Described, GroupOf;
    if cs == [] {
      DescribedEmpty(start, sector);
    } else {
      GroupsAreRuns(Init(cs), start, sector);
      var rs, gs, c := Runs(Init(cs)), Groups(Init(cs), start, sector), Last(cs);
      if c.raw {
        if EndsRaw(Init(cs)) {
          DescribedInit(rs, gs, start, sector);
          GroupOfExtended(Last(rs), c, start, sector);
          DescribedAppend(Init(rs), Init(gs), Last(rs).(chunks := Last(rs).chunks + [c]), start, sector);
        } else {
          GroupOfSingle(|cs| - 1, Covered(Init(cs)), c, start, sector);
          DescribedAppend(rs, gs, Run(|cs| - 1, Covered(Init(cs)), [c]), start, sector);
        }
      }
    }
  }

  lemma GroupOfSingle(first: nat, n: nat, c: Chunk, start: nat, sector: nat)
    requires sector > 0
    ensures GroupOf(Run(first, n, [c]), start, sector) == Group(c.at, start + Sectors(n, sector), c.bytes)
  {
    CoveredAppend([], c);
    assert [] + [c] == [c];
  }

  lemma DescribedEmpty(start: nat, sector: nat)
    requires sector > 0
    ensures Described([], [], start, sector)
  {
  }

  /** The last run reaches to the end of the chunks, if they end with a raw one. */
  lemma {:induction false} LastRunEnds(cs: seq<Chunk>)
    ensures forall k | 0 <= k < |Runs(cs)| :: Runs(cs)[k].start + Covered(Runs(cs)[k].chunks) <= Covered(cs)
    ensures EndsRaw(cs) ==> Last(Runs(cs)).start + Covered(Last(Runs(cs)).chunks) == Covered(cs)
  {
    if cs != [] {
      LastRunEnds(Init(cs));
      var rs := Runs(Init(cs));
      if EndsRaw(Init(cs)) {
        CoveredAppend(Last(rs).chunks, Last(cs));
      }
      CoveredAppend([], Last(cs));
    }
  }

  /** Groups lie one after the other on the device. */
  lemma {:induction false} RunsAscend(cs: seq<Chunk>)
    ensures forall k | 0 <= k < |Runs(cs)| - 1 ::
              Runs(cs)[k].start + Covered(Runs(cs)[k].chunks) <= Runs(cs)[k + 1].start
  {
    if cs != [] {
      RunsAscend(Init(cs));
      LastRunEnds(Init(cs));
    }
  }

  /** Where the runs begin. */
  lemma {:induction false} RunStarts(cs: seq<Chunk>, k: nat)
    requires k < |Runs(cs)|
    ensures var r := Runs(cs)[k];
            r.first < |cs| && r.chunks[0] == cs[r.first] && r.start == Covered(cs[..r.first])
  {
    hide Covered;
    var rs, n := Runs(Init(cs)), |cs| - 1;
    assert Init(cs) == cs[..n];
    if k < |rs| {
      RunStarts(Init(cs), k);
      var m := rs[k].first;
      assert Init(cs)[..m] == cs[..m];
    }
  }

  /** The bytes of all raw chunks as sparse_open counts them, and those of all groups. */
  function RawCovered(cs: seq<Chunk>): nat {
    if cs == [] then 0 else RawCovered(Init(cs)) + if Last(cs).raw then Last(cs).bytes else 0
  }

  function GroupBytes(gs: seq<Group>): nat {
    if gs == [] then 0 else GroupBytes(Init(gs)) + Last(gs).bytes
  }

  lemma GroupBytesAppend(gs: seq<Group>, g: Group)
    ensures GroupBytes(gs + [g]) == GroupBytes(gs) + g.bytes
  {
  }

  lemma {:induction false} GroupBytesAre(cs: seq<Chunk>, start: nat, sector: nat)
    requires sector > 0
    ensures GroupBytes(Groups(cs, start, sector)) == RawCovered(cs)
  {
    hide Sectors;
    if cs == [] {
      assert GroupBytes([]) == 0;
    } else {
      GroupBytesAre(Init(cs), start, sector);
      var gs, c := Groups(Init(cs), start, sector), Last(cs);
      if c.raw {
        if EndsRaw(Init(cs)) {
          assert gs == Init(gs) + [Last(gs)];
          GroupBytesAppend(Init(gs), Last(gs));
          GroupBytesAppend(Init(gs), Last(gs).(bytes := Last(gs).bytes + c.bytes));
        } else {
          GroupBytesAppend(gs, Group(c.at, start + Sectors(Covered(Init(cs)), sector), c.bytes));
        }
      }
    }
  }

  /** All the raw data that the chunks promise is in the file. */
  ghost predicate Complete(file: seq<byte>, cs: seq<Chunk>) {
    forall i | 0 <= i < |cs| :: Whole(file, cs[i])
  }
}
