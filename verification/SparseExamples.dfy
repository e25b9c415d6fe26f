/** Images that sparse_open accepts and that come out wrong, or not at all. */
module SparseExamples {
  import opened Bytes
  import opened Sparse
  import opened SparseMeaning
  import opened SparseRead
  import opened SparseRuns
  import opened SparseProgram
  import opened Wrappers

  /** A sparse header for blocks of 512 bytes, with the usual header sizes. */
  function ImageHeader(blocks: nat, chunks: nat): (s: seq<byte>)
    ensures |s| == 28
  {
    var sizes: seq<byte> := [1, 0, 0, 0, 28, 0, 12, 0];
    Le32(0xed26ff3a) + sizes + (Le32(512) + Le32(blocks) + (Le32(chunks) + Le32(0)))
  }

  /** The header of a chunk; the kind is 0xC1 for a raw one, 0xC3 for one to be skipped. */
  function ChunkBytes(kind: byte, blocks: nat, total: nat): (s: seq<byte>)
    ensures |s| == 12
  {
    var front: seq<byte> := [kind, 0xCA, 0, 0];
    front + (Le32(blocks) + Le32(total))
  }

  function RawChunk(blocks: nat, total: nat): (s: seq<byte>)
    ensures |s| == 12
  {
    ChunkBytes(0xC1, blocks, total)
  }

  lemma HeaderIs(blocks: nat, chunks: nat, body: seq<byte>)
    requires blocks < WORD && chunks < WORD
    ensures HeaderOf(ImageHeader(blocks, chunks) + body) == Some(Header(28, 12, 512, blocks, chunks))
  {
    var sizes: seq<byte> := [1, 0, 0, 0, 28, 0, 12, 0];
    var file := ImageHeader(blocks, chunks) + body;
    var a := Le32(0xed26ff3a);
    hide Le32, Le32At;
    assert file == [] + a + (sizes + (Le32(512) + Le32(blocks) + (Le32(chunks) + Le32(0))) + body);
    Le32RoundTrip([], 0xed26ff3a, sizes + (Le32(512) + Le32(blocks) + (Le32(chunks) + Le32(0))) + body);
    assert file == (a + sizes) + Le32(512) + (Le32(blocks) + (Le32(chunks) + Le32(0)) + body);
    Le32RoundTrip(a + sizes, 512, Le32(blocks) + (Le32(chunks) + Le32(0)) + body);
    assert file == (a + sizes + Le32(512)) + Le32(blocks) + (Le32(chunks) + Le32(0) + body);
    Le32RoundTrip(a + sizes + Le32(512), blocks, Le32(chunks) + Le32(0) + body);
    assert file == (a + sizes + Le32(512) + Le32(blocks)) + Le32(chunks) + (Le32(0) + body);
    Le32RoundTrip(a + sizes + Le32(512) + Le32(blocks), chunks, Le32(0) + body);
    assert forall i | 4 <= i < 12 :: file[i] == sizes[i - 4];
  }

  lemma ChunkFields(left: seq<byte>, kind: byte, blocks: nat, total: nat, right: seq<byte>)
    requires blocks < WORD && total < WORD
    ensures var file := left + ChunkBytes(kind, blocks, total) + right; var p := |left|;
            && p + 12 <= |file| && Le16At(file, p) == 0xCA00 + kind
            && Le32At(file, p + 4) == blocks && Le32At(file, p + 8) == total
  {
    var front: seq<byte> := [kind, 0xCA, 0, 0];
    var file := left + ChunkBytes(kind, blocks, total) + right;
    hide Le32, Le32At;
    assert file == (left + front) + Le32(blocks) + (Le32(total) + right);
    Le32RoundTrip(left + front, blocks, Le32(total) + right);
    assert file == (left + front + Le32(blocks)) + Le32(total) + right;
    Le32RoundTrip(left + front + Le32(blocks), total, right);
    assert file[|left|] == kind && file[|left| + 1] == 0xCA;
  }

  /** What sparse_open makes of such a header. */
  lemma RawChunkAt(left: seq<byte>, blocks: nat, bytes: nat, right: seq<byte>, hd: Header)
    requires blocks < WORD && hd.chunkHdr == 12 && hd.blk == 512
    requires bytes == blocks * 512 % WORD && bytes % 512 == 0 && bytes + 12 < WORD
    ensures ChunkAt(left + RawChunk(blocks, 12 + bytes) + right, hd, 512, |left|)
            == Some(Chunk(true, |left|, |left| + 12, blocks, bytes))
  {
    hide Le32At, Le16At, ChunkBytes;
    ChunkFields(left, 0xC1, blocks, 12 + bytes, right);
    assert (12 + bytes) % WORD == 12 + bytes;
  }

  lemma SkipChunkAt(left: seq<byte>, blocks: nat, bytes: nat, right: seq<byte>, hd: Header)
    requires blocks < WORD && hd.chunkHdr == 12 && hd.blk == 512
    requires bytes == blocks * 512 % WORD && bytes % 512 == 0
    ensures ChunkAt(left + ChunkBytes(0xC3, blocks, 12) + right, hd, 512, |left|)
            == Some(Chunk(false, |left|, |left| + 12, blocks, bytes))
  {
    hide Le32At, Le16At, ChunkBytes;
    ChunkFields(left, 0xC3, blocks, 12, right);
  }

  lemma ChunksNext(file: seq<byte>, hd: Header, sector: nat, cs: seq<Chunk>, c: Chunk)
    requires sector > 0 && Chunks(file, hd, sector, |cs|) == Some(cs)
    requires ChunkAt(file, hd, sector, Position(hd, cs)) == Some(c)
    ensures Chunks(file, hd, sector, |cs| + 1) == Some(cs + [c])
  {
    hide ChunkAt;
  }

  lemma NoChunks(file: seq<byte>, hd: Header, sector: nat)
    requires sector > 0
    ensures Chunks(file, hd, sector, 0) == Some([]) && Position(hd, []) == FirstChunk(hd)
  {
  }

  /** An image of one raw chunk is one group. */
  lemma OpenOne(file: seq<byte>, hd: Header, c: Chunk, start: nat, sector: nat)
    requires sector > 0 && HeaderOf(file) == Some(hd) && hd.totalChunks == 1 && hd.totalBlks == c.blocks < WORD
    requires c.raw && ChunkAt(file, hd, sector, FirstChunk(hd)) == Some(c)
    ensures Chunks(file, hd, sector, 1) == Some([c])
    ensures OpenSpec(file, start, sector) == Opened(hd, [Group(c.at, start, c.bytes)])
  {
    hide HeaderOf, ChunkAt, Chunks, OpenSpec, Groups, Blocks;
    NoChunks(file, hd, sector);
    ChunksNext(file, hd, sector, [], c);
    assert [] + [c] == [c];
    GroupsOfOne(c, start, sector);
    OpenIs(file, hd, [c], start, sector);
  }

  /** Two raw chunks side by side are one group too. */
  lemma OpenTwo(file: seq<byte>, hd: Header, c: Chunk, d: Chunk, start: nat, sector: nat)
    requires sector > 0 && HeaderOf(file) == Some(hd) && hd.totalChunks == 2 && hd.totalBlks == c.blocks + d.blocks < WORD
    requires c.raw && ChunkAt(file, hd, sector, FirstChunk(hd)) == Some(c)
    requires d.raw && ChunkAt(file, hd, sector, Next(c)) == Some(d)
    ensures OpenSpec(file, start, sector) == Opened(hd, [Group(c.at, start, c.bytes + d.bytes)])
  {
    hide HeaderOf, ChunkAt, Chunks, OpenSpec, Groups, Blocks;
    NoChunks(file, hd, sector);
    ChunksNext(file, hd, sector, [], c);
    assert [] + [c] == [c];
    ChunksNext(file, hd, sector, [c], d);
    assert [c] + [d] == [c, d];
    GroupsOfTwo(c, d, start, sector);
    OpenIs(file, hd, [c, d], start, sector);
  }

  /** Raw chunks with a skipped one between them are two groups. */
  lemma OpenThree(file: seq<byte>, hd: Header, c: Chunk, d: Chunk, e: Chunk, start: nat, sector: nat)
    requires sector > 0 && HeaderOf(file) == Some(hd) && hd.totalChunks == 3
    requires hd.totalBlks == c.blocks + d.blocks + e.blocks < WORD
    requires c.raw && ChunkAt(file, hd, sector, FirstChunk(hd)) == Some(c)
    requires !d.raw && ChunkAt(file, hd, sector, Next(c)) == Some(d)
    requires e.raw && ChunkAt(file, hd, sector, Next(d)) == Some(e)
    ensures Chunks(file, hd, sector, 3) == Some([c, d, e])
    ensures OpenSpec(file, start, sector)
         == Opened(hd, [Group(c.at, start, c.bytes), Group(e.at, start + Sectors(c.bytes + d.bytes, sector), e.bytes)])
  {
    hide HeaderOf, ChunkAt, Chunks, OpenSpec, Groups, Blocks, Sectors;
    NoChunks(file, hd, sector);
    ChunksNext(file, hd, sector, [], c);
    assert [] + [c] == [c];
    ChunksNext(file, hd, sector, [c], d);
    assert [c] + [d] == [c, d];
    ChunksNext(file, hd, sector, [c, d], e);
    assert [c, d] + [e] == [c, d, e];
    GroupsOfThree(c, d, e, start, sector);
    ChunkShape(file, hd, sector, Next(d));
    OpenIs(file, hd, [c, d, e], start, sector);
  }

  lemma OpenIs(file: seq<byte>, hd: Header, cs: seq<Chunk>, start: nat, sector: nat)
    requires sector > 0 && HeaderOf(file) == Some(hd) && Chunks(file, hd, sector, hd.totalChunks) == Some(cs)
    requires Blocks(cs) == hd.totalBlks < WORD
    ensures OpenSpec(file, start, sector) == Opened(hd, Groups(cs, start, sector))
  {
    hide HeaderOf, Chunks, Blocks, Groups;
  }

  lemma GroupsOfOne(c: Chunk, start: nat, sector: nat)
    requires sector > 0 && c.raw
    ensures Groups([c], start, sector) == [Group(c.at, start, c.bytes)] && Blocks([c]) == c.blocks
  {
    assert Init([c]) == [] && Covered([]) == 0;
    assert Sectors(0, sector) == 0;
  }

  lemma GroupsOfTwo(c: Chunk, d: Chunk, start: nat, sector: nat)
    requires sector > 0 && c.raw && d.raw
    ensures Groups([c, d], start, sector) == [Group(c.at, start, c.bytes + d.bytes)]
    ensures Blocks([c, d]) == c.blocks + d.blocks
  {
    hide Sectors;
    GroupsOfOne(c, start, sector);
    assert Init([c, d]) == [c];
  }

  lemma GroupsOfThree(c: Chunk, d: Chunk, e: Chunk, start: nat, sector: nat)
    requires sector > 0 && c.raw && !d.raw && e.raw
    ensures Groups([c, d, e], start, sector)
         == [Group(c.at, start, c.bytes), Group(e.at, start + Sectors(c.bytes + d.bytes, sector), e.bytes)]
    ensures Blocks([c, d, e]) == c.blocks + d.blocks + e.blocks
  {
    hide Sectors;
    GroupsOfOne(c, start, sector);
    assert Init([c, d, e]) == [c, d] && Init([c, d]) == [c] && Init([c]) == [];
    assert Covered([]) == 0 && Covered([c]) == c.bytes && Covered([c, d]) == c.bytes + d.bytes;
    assert Groups([c, d], start, sector) == Groups([c], start, sector);
  }

  // ---------- A group without data ----------

  /** One raw chunk of no blocks. */
  function EmptyImage(): seq<byte> {
    ImageHeader(0, 1) + RawChunk(0, 12)
  }

  /** sparse_open accepts it, and the transfer of its one group ends the program. */
  lemma EmptyGroup(start: nat)
    ensures var o := OpenSpec(EmptyImage(), start, 512);
            o == Opened(Header(28, 12, 512, 0, 1), [Group(28, start, 0)]) && !NoneEmpty(o.groups)
  {
    var hd := Header(28, 12, 512, 0, 1);
    hide HeaderOf, ChunkAt, ImageHeader, RawChunk, OpenSpec;
    HeaderIs(0, 1, RawChunk(0, 12));
    RawChunkAt(ImageHeader(0, 1), 0, 0, [], hd);
    assert ImageHeader(0, 1) + RawChunk(0, 12) + [] == EmptyImage();
    OpenOne(EmptyImage(), hd, Chunk(true, 28, 40, 0, 0), start, 512);
    assert [Group(28, start, 0)][0].bytes == 0;
  }

  // ---------- A chunk of more than 2^32 bytes ----------

  /** 8388609 blocks are 2^32 + 512 bytes, of which sparse_open sees the 512; one block more
      follows. */
  const LARGE: nat := 8388609

  function LargeImage(): seq<byte> {
    ImageHeader(LARGE + 1, 2) + (RawChunk(LARGE, 524) + Zeros(512) + (RawChunk(1, 524) + Zeros(512)))
  }

  function LargeHeader(): Header { Header(28, 12, 512, LARGE + 1, 2) }

  function LargeFirst(): Chunk { Chunk(true, 28, 40, LARGE, 512) }

  function LargeSecond(): Chunk { Chunk(true, 552, 564, 1, 512) }

  lemma LargeChunks()
    ensures HeaderOf(LargeImage()) == Some(LargeHeader())
    ensures ChunkAt(LargeImage(), LargeHeader(), 512, 28) == Some(LargeFirst())
    ensures ChunkAt(LargeImage(), LargeHeader(), 512, 552) == Some(LargeSecond())
  {
    hide HeaderOf, ChunkAt, ImageHeader, RawChunk, Zeros;
    var a, b, c, z := ImageHeader(LARGE + 1, 2), RawChunk(LARGE, 524), RawChunk(1, 524), Zeros(512);
    HeaderIs(LARGE + 1, 2, b + z + (c + z));
    assert LargeImage() == a + b + (z + (c + z));
    RawChunkAt(a, LARGE, 512, z + (c + z), LargeHeader());
    assert LargeImage() == (a + b + z) + c + z;
    RawChunkAt(a + b + z, 1, 512, z, LargeHeader());
  }

  /** sparse_open accepts the image as one group; read_chunk_header finds another size than
      sparse_open for its first chunk; and reading the group gives the header of the second
      chunk as data. */
  lemma LargeChunkMisread(start: nat)
    ensures OpenSpec(LargeImage(), start, 512) == Opened(LargeHeader(), [Group(28, start, 1024)])
    ensures HeaderAfter(LargeImage(), LargeHeader(), 28) == Some(Found(40, WORD + 512))
    ensures GroupData(LargeImage(), LargeHeader(), Group(28, start, 1024)) != Data(LargeImage(), [LargeFirst(), LargeSecond()])
  {
    hide HeaderOf, ChunkAt, HeaderAfter, Places, LargeImage, OpenSpec, Data, Covered;
    LargeChunks();
    OpenTwo(LargeImage(), LargeHeader(), LargeFirst(), LargeSecond(), start, 512);
    HeaderExact(LargeImage(), LargeHeader(), 512, LargeFirst());
    var run := [LargeFirst(), LargeSecond()];
    LargeRun();
    assert Linked(LargeImage(), LargeHeader(), 512, run);
    SparseRuns.LargeFirst(LargeImage(), LargeHeader(), 512, run);
    LargeBytes();
  }

  lemma LargeBytes()
    ensures |LargeImage()| == 1076 && LargeImage()[552] == 0xC1
    ensures var data := Data(LargeImage(), [LargeFirst(), LargeSecond()]); |data| > 512 && data[512] == 0
  {
    hide ImageHeader, Data;
    var file, run := LargeImage(), [LargeFirst(), LargeSecond()];
    assert run[1..] == [LargeSecond()];
    DataFront(file, run);
    DataFront(file, run[1..]);
    assert run[1..][1..] == [];
  }

  lemma LargeRun()
    ensures var run := [LargeFirst(), LargeSecond()]; Covered(run) == 1024 && Covered(run[1..]) == 512
  {
    var run := [LargeFirst(), LargeSecond()];
    assert Init(run) == [LargeFirst()] && Init([LargeFirst()]) == [];
    assert run[1..] == [LargeSecond()] && Init([LargeSecond()]) == [];
    assert Covered([]) == 0 && Covered([LargeFirst()]) == 512 && Covered(run[1..]) == 512;
  }

  // ---------- A skipped chunk of 2^32 bytes ----------

  /** One raw block, 8388608 blocks to be skipped, which are 2^32 bytes, and one raw block. */
  const FAR: nat := 8388608

  function FarImage(): seq<byte> {
    ImageHeader(FAR + 2, 3)
    + (RawChunk(1, 524) + Zeros(512) + (ChunkBytes(0xC3, FAR, 12) + (RawChunk(1, 524) + Zeros(512))))
  }

  function FarHeader(): Header { Header(28, 12, 512, FAR + 2, 3) }

  function FarChunks(): seq<Chunk> {
    [Chunk(true, 28, 40, 1, 512), Chunk(false, 552, 564, FAR, 0), Chunk(true, 564, 576, 1, 512)]
  }

  function FarGroups(start: nat): seq<Group> {
    [Group(28, start, 512), Group(564, start + 1, 512)]
  }

  lemma FarOpen(start: nat)
    ensures HeaderOf(FarImage()) == Some(FarHeader()) && Chunks(FarImage(), FarHeader(), 512, 3) == Some(FarChunks())
    ensures OpenSpec(FarImage(), start, 512) == Opened(FarHeader(), FarGroups(start))
    ensures |FarImage()| == 1088
  {
    hide HeaderOf, ChunkAt, Chunks, OpenSpec, ImageHeader, RawChunk, ChunkBytes, Zeros;
    var a, b, c, z := ImageHeader(FAR + 2, 3), RawChunk(1, 524), ChunkBytes(0xC3, FAR, 12), Zeros(512);
    var file, hd, cs := FarImage(), FarHeader(), FarChunks();
    HeaderIs(FAR + 2, 3, b + z + (c + (b + z)));
    assert file == a + b + (z + (c + (b + z)));
    RawChunkAt(a, 1, 512, z + (c + (b + z)), hd);
    assert file == (a + b + z) + c + (b + z);
    SkipChunkAt(a + b + z, FAR, 0, b + z, hd);
    assert file == (a + b + z + c) + b + z;
    RawChunkAt(a + b + z + c, 1, 512, z, hd);
    OpenThree(file, hd, cs[0], cs[1], cs[2], start, 512);
  }

  lemma FarOffsets()
    ensures var cs := FarChunks();
            && Offset(FarHeader(), cs[..0]) == 0 && Offset(FarHeader(), cs[..1]) == 512
            && Offset(FarHeader(), cs[..2]) == WORD + 512 && Offset(FarHeader(), cs) == WORD + 1024
  {
    var cs := FarChunks();
    assert Init(cs) == cs[..2] && Init(cs[..2]) == cs[..1] && Init(cs[..1]) == cs[..0] == [];
  }

  lemma FarRaw(x: int)
    ensures RawAt(FarHeader(), FarChunks(), x) <==> 0 <= x < 512 || WORD + 512 <= x < WORD + 1024
    ensures WORD > 1024
  {
    hide Offset;
    FarOffsets();
    var hd, cs := FarHeader(), FarChunks();
    assert Init(cs) == cs[..2] && Init(cs[..2]) == cs[..1] && Init(cs[..1]) == cs[..0] == [];
    assert RawAt(hd, cs[..1], x) <==> 0 <= x < 512;
    assert RawAt(hd, cs[..2], x) <==> 0 <= x < 512;
  }

  /** Two groups on the device. */
  lemma TwoGroups(file: seq<byte>, hd: Header, g: Group, h: Group, s: nat, a: nat)
    requires AllRead(file, hd, [g, h])
    ensures a in Store(file, map[], GroupMoves(file, hd, [g, h], s))
            <==> g.startSector * s <= a < g.startSector * s + g.bytes || h.startSector * s <= a < h.startSector * s + h.bytes
  {
    hide GroupMoves, Store, GroupPlaces, BytesAt;
    var gs := [g, h];
    assert |GroupPlaces(file, hd, gs[0])| == gs[0].bytes && |GroupPlaces(file, hd, gs[1])| == gs[1].bytes;
    NoGroupMoves(file, hd, s);
    StoreGroup(file, hd, gs, 0, s);
    StoreGroup(file, hd, gs, 1, s);
    assert gs[..0] == [] && gs[..2] == gs;
  }

  /** The image is opened, no group is empty and all of it is in the file, so that programming
      it ends well; but its second block comes to lie right behind the first, where the image
      has nothing, and not 2^32 bytes further on. */
  lemma SkippedTooLittle(start: nat)
    ensures var file, hd, cs := FarImage(), FarHeader(), FarChunks();
            var gs := FarGroups(start);
            var device, meant := Store(file, map[], GroupMoves(file, hd, gs, 512)), Expand(file, hd, cs, start * 512);
            && OpenSpec(file, start, 512) == Opened(hd, gs) && ImageChunks(file, 512) == Some(cs)
            && NoneEmpty(gs) && AllRead(file, hd, gs) && AllThere(file, hd, cs) && !Exact(hd, cs)
            && start * 512 + 512 in device && start * 512 + 512 !in meant
            && start * 512 + WORD + 512 !in device && start * 512 + WORD + 512 in meant
  {
    hide *;
    var file, hd, cs, gs := FarImage(), FarHeader(), FarChunks(), FarGroups(start);
    FarOpen(start);
    FarShape(start);
    Prepare(file, start, 512);
    RawSmallFits(hd, cs);
    AllReadIsComplete(file, hd, start, 512, Runs(cs), gs);
    CompleteRuns(file, cs);
    ThereIsComplete(file, hd, cs);
    TwoGroups(file, hd, gs[0], gs[1], 512, start * 512 + 512);
    TwoGroups(file, hd, gs[0], gs[1], 512, start * 512 + WORD + 512);
    ExpandTouches(file, hd, cs, start * 512, start * 512 + 512);
    ExpandTouches(file, hd, cs, start * 512, start * 512 + WORD + 512);
    FarRaw(512);
    FarRaw(WORD + 512);
  }

  lemma FarShape(start: nat)
    requires |FarImage()| == 1088 && HeaderOf(FarImage()) == Some(FarHeader())
    requires Chunks(FarImage(), FarHeader(), 512, 3) == Some(FarChunks())
    ensures var gs := FarGroups(start);
            && gs == [gs[0], gs[1]] && gs[0] == Group(28, start, 512) && gs[1] == Group(564, start + 1, 512)
            && NoneEmpty(gs)
    ensures RawSmall(FarHeader(), FarChunks()) && !Exact(FarHeader(), FarChunks()) && AllThere(FarImage(), FarHeader(), FarChunks())
    ensures ImageChunks(FarImage(), 512) == Some(FarChunks())
  {
    hide FarImage, HeaderOf, Chunks;
    var cs := FarChunks();
    assert !Small(FarHeader(), cs[1]) && cs[2].raw && Full(FarHeader(), cs[2]) == 512;
    assert !NoneBehind(FarHeader(), cs, 1);
  }

  // ---------- An image cut short ----------

  /** One raw block, of which 100 bytes are there. */
  function CutImage(): seq<byte> {
    ImageHeader(1, 1) + (RawChunk(1, 524) + Zeros(100))
  }

  /** sparse_open accepts it, and its group cannot be read whole. */
  lemma CutShort(start: nat)
    ensures var hd, gs, cs := Header(28, 12, 512, 1, 1), [Group(28, start, 512)], [Chunk(true, 28, 40, 1, 512)];
            && OpenSpec(CutImage(), start, 512) == Opened(hd, gs) && ImageChunks(CutImage(), 512) == Some(cs)
            && Exact(hd, cs) && !AllThere(CutImage(), hd, cs) && !AllRead(CutImage(), hd, gs)
  {
    hide *;
    var hd, c := Header(28, 12, 512, 1, 1), Chunk(true, 28, 40, 1, 512);
    var cs := [c];
    CutOpen(start);
    CutShape();
    Prepare(CutImage(), start, 512);
    GroupsMeanImage(CutImage(), hd, start, 512, cs, [Group(28, start, 512)]);
  }

  lemma CutOpen(start: nat)
    ensures var hd, c := Header(28, 12, 512, 1, 1), Chunk(true, 28, 40, 1, 512);
            && OpenSpec(CutImage(), start, 512) == Opened(hd, [Group(28, start, 512)])
            && ImageChunks(CutImage(), 512) == Some([c]) && |CutImage()| == 140
  {
    hide HeaderOf, ChunkAt, Chunks, ImageHeader, RawChunk, OpenSpec, Zeros;
    var hd, c := Header(28, 12, 512, 1, 1), Chunk(true, 28, 40, 1, 512);
    HeaderIs(1, 1, RawChunk(1, 524) + Zeros(100));
    assert CutImage() == ImageHeader(1, 1) + RawChunk(1, 524) + Zeros(100);
    RawChunkAt(ImageHeader(1, 1), 1, 512, Zeros(100), hd);
    OpenOne(CutImage(), hd, c, start, 512);
  }

  lemma CutShape()
    requires |CutImage()| == 140
    ensures var hd, cs := Header(28, 12, 512, 1, 1), [Chunk(true, 28, 40, 1, 512)];
            Exact(hd, cs) && !AllThere(CutImage(), hd, cs)
  {
    hide CutImage;
    var hd, cs := Header(28, 12, 512, 1, 1), [Chunk(true, 28, 40, 1, 512)];
    assert Full(hd, cs[0]) == 512;
    assert !There(CutImage(), hd, cs[0]);
  }
}
