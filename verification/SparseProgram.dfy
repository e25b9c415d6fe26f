/** From the sparse image to the device: sparse_open, one <program> per group,
    handleProgram reading each group back through sparse_read. */
module SparseProgram {
  import opened Bytes
  import opened Sparse
  import opened SparseMeaning
  import opened SparseRead
  import opened SparseRuns
  import opened Program
  import opened Wrappers

  // ---------- Whole sectors ----------

  ghost predicate Sectorwise(s: nat, cs: seq<Chunk>)
    requires s > 0
  {
    forall i | 0 <= i < |cs| :: WholeSectors(cs[i].bytes, s)
  }

  lemma {:induction false} ChunksAreSectorwise(file: seq<byte>, hd: Header, s: nat, cs: seq<Chunk>)
    requires s > 0 && Chunks(file, hd, s, |cs|) == Some(cs)
    ensures Sectorwise(s, cs)
  {
    hide ChunkAt, WholeSectors;
    if cs != [] {
      SomePrefix(file, hd, s, |cs| - 1, |cs|);
      ChunksAreSectorwise(file, hd, s, Init(cs));
      ChunkShape(file, hd, s, Position(hd, Init(cs)));
      assert forall i | 0 <= i < |cs| - 1 :: cs[i] == Init(cs)[i];
    }
  }

  lemma {:induction false} SectorwiseCovered(s: nat, cs: seq<Chunk>)
    requires s > 0 && Sectorwise(s, cs)
    ensures WholeSectors(Covered(cs), s)
  {
    hide WholeSectors;
    if cs == [] {
      assert WholeSectors(0, s) by { NoSectors(s); }
    } else {
      SectorwiseCovered(s, Init(cs));
      SectorsAdd(Covered(Init(cs)), Last(cs).bytes, s);
    }
  }

  lemma NoSectors(s: nat)
    requires s > 0
    ensures WholeSectors(0, s)
  {
  }

  /** Runs start at a sector and are made of whole ones. */
  ghost predicate SectorwiseRuns(s: nat, rs: seq<Run>)
    requires s > 0
  {
    forall k | 0 <= k < |rs| :: WholeSectors(rs[k].start, s) && Sectorwise(s, rs[k].chunks)
  }

  lemma {:induction false} RunsAreSectorwise(s: nat, cs: seq<Chunk>)
    requires s > 0 && Sectorwise(s, cs)
    ensures SectorwiseRuns(s, Runs(cs))
  {
    hide WholeSectors;
    if cs != [] {
      RunsAreSectorwise(s, Init(cs));
      SectorwiseCovered(s, Init(cs));
    }
  }

  /** The address of a group on the device. */
  lemma GroupAddress(start: nat, s: nat, offset: nat)
    requires s > 0 && WholeSectors(offset, s)
    ensures (start + Sectors(offset, s)) * s == start * s + offset
  {
    var n := offset / s;
    assert offset == n * s;
  }

  // ---------- One group ----------

  /** The bytes that reading a group gives. */
  function GroupData(file: seq<byte>, hd: Header, g: Group): seq<byte> {
    BytesAt(file, GroupPlaces(file, hd, g))
  }

  /** A group of whole sectors goes out as it is, if all of it is there; otherwise the
      program ends. */
  lemma GroupSent(data: seq<byte>, bytes: nat, p: nat, s: nat)
    requires s > 0 && p > 0 && WholeSectors(p, s) && WholeSectors(bytes, s) && |data| <= bytes
    ensures Announced(bytes, s, Sectors(bytes, s)) == Sectors(bytes, s)
    ensures var t := TransferOf(data, bytes, p, s, Sectors(bytes, s));
            (t.Some? <==> |data| == bytes) && (t.Some? ==> Concat(t.value) == data)
  {
    var n := Sectors(bytes, s);
    assert CeilDiv(bytes, s) == n && Size(n, s) == bytes by { PadAmount(bytes, s); }
    assert p == Size(p / s, s);
    hide Transfer, TransferOf, CeilDiv, Size, Sectors;
    if |data| == bytes {
      TransferOfWhole(data, p, s, n);
      TransferIsRight(data, p, s, p / s, n);
      assert Sectored(data, s) == data;
    } else {
      TransferOfShort(data, p, s, p / s, n);
    }
  }

  lemma PayloadIsWhole(p: nat, s: nat)
    requires s > 0 && WholeSectors(p, s)
    ensures Size(CeilDiv(p, s), s) == p
  {
    PadAmount(p, s);
  }

  /** One group: sparse_read_handle_init and the transfer. */
  method ProgramGroup(file: seq<byte>, hd: Header, g: Group, s: nat, p: nat, tx: array<byte>) returns (r: Outcome)
    requires s > 0 && p > 0 && WholeSectors(p, s) && p <= tx.Length && WholeSectors(g.bytes, s)
    modifies tx
    ensures r.Sent? <==> g.bytes > 0 && |GroupPlaces(file, hd, g)| == g.bytes
    ensures r.Sent? ==> Concat(r.packets) == GroupData(file, hd, g) && r.announced == Sectors(g.bytes, s)
  {
    hide Places, TransferOf, Announced, WholeSectors, Sectors, BytesAt, HeaderAfter;
    if g.bytes == 0 {
      return Failed;
    }
    PlacesHeader(file, hd, g.fileOffset, g.bytes);
    var first := ReadChunkHeader(file, hd, g.fileOffset);
    if first.None? {
      return Failed;
    }
    var reader := new Reader(file, hd, first.value, g.bytes);
    PayloadIsWhole(p, s);
    GroupSent(GroupData(file, hd, g), g.bytes, p, s);
    r := HandleProgram(file, 0, reader, g.bytes, s, Sectors(g.bytes, s), p, tx);
  }

  // ---------- The whole image ----------

  /** What goes where when each group is written at its start sector. */
  function GroupMoves(file: seq<byte>, hd: Header, gs: seq<Group>, s: nat): (ms: seq<Move>)
    ensures FromFile(file, ms)
  {
    if gs == [] then []
    else GroupMoves(file, hd, Init(gs), s) + Moves(Last(gs).startSector * s, GroupPlaces(file, hd, Last(gs)))
  }

  lemma GroupMovesMore(file: seq<byte>, hd: Header, gs: seq<Group>, k: nat, s: nat)
    requires k < |gs|
    ensures GroupMoves(file, hd, gs[..k + 1], s)
         == GroupMoves(file, hd, gs[..k], s) + Moves(gs[k].startSector * s, GroupPlaces(file, hd, gs[k]))
  {
    hide Moves, GroupPlaces;
    assert Init(gs[..k + 1]) == gs[..k] && Last(gs[..k + 1]) == gs[k];
  }

  /** A group written behind the others. */
  lemma StoreGroup(file: seq<byte>, hd: Header, gs: seq<Group>, k: nat, s: nat)
    requires k < |gs|
    ensures Write(Store(file, map[], GroupMoves(file, hd, gs[..k], s)), gs[k].startSector * s, GroupData(file, hd, gs[k]))
         == Store(file, map[], GroupMoves(file, hd, gs[..k + 1], s))
  {
    hide Moves, GroupPlaces, GroupMoves, Store, Write, FromFile, BytesAt;
    var before := GroupMoves(file, hd, gs[..k], s);
    var at, ps := gs[k].startSector * s, GroupPlaces(file, hd, gs[k]);
    GroupMovesMore(file, hd, gs, k, s);
    WriteIsStore(file, Store(file, map[], before), at, ps);
    StoreAppend(file, map[], before, Moves(at, ps));
  }

  /** The chunks of an image that sparse_open reads through. */
  function ImageChunks(file: seq<byte>, s: nat): Option<seq<Chunk>>
    requires s > 0
  {
    match HeaderOf(file)
    case None => None
    case Some(hd) => Chunks(file, hd, s, hd.totalChunks)
  }

  /** No chunk of 2^32 bytes or more has data behind it in its group. */
  ghost predicate AllFit(hd: Header, rs: seq<Run>) {
    forall k | 0 <= k < |rs| :: Fits(hd, rs[k].chunks)
  }

  /** What is known of the groups of an accepted image. */
  ghost predicate Prepared(file: seq<byte>, hd: Header, start: nat, s: nat, rs: seq<Run>, gs: seq<Group>)
    requires s > 0
  {
    Described(rs, gs, start, s) && AllLinked(file, hd, s, rs) && SectorwiseRuns(s, rs)
  }

  lemma Prepare(file: seq<byte>, start: nat, s: nat)
    requires s > 0 && OpenSpec(file, start, s).Opened?
    ensures ImageChunks(file, s).Some?
    ensures var o := OpenSpec(file, start, s);
            var cs := ImageChunks(file, s).value;
            && Prepared(file, o.header, start, s, Runs(cs), o.groups)
            && Sized(o.header, cs) && o.groups == Groups(cs, start, s)
  {
    var hd := HeaderOf(file).value;
    var cs := ImageChunks(file, s).value;
    hide ChunkAt, HeaderOf, Described, AllLinked, SectorwiseRuns, Sectorwise, WholeSectors, Sized;
    ChunksSized(file, hd, s, cs);
    GroupsAreRuns(cs, start, s);
    RunsLinked(file, hd, s, cs);
    ChunksAreSectorwise(file, hd, s, cs);
    RunsAreSectorwise(s, cs);
  }

  lemma PreparedGroup(file: seq<byte>, hd: Header, start: nat, s: nat, rs: seq<Run>, gs: seq<Group>, k: nat)
    requires s > 0 && Prepared(file, hd, start, s, rs, gs) && k < |gs|
    ensures |gs| == |rs| && rs[k].chunks != [] && gs[k] == GroupOf(rs[k], start, s)
    ensures Linked(file, hd, s, rs[k].chunks)
    ensures WholeSectors(gs[k].bytes, s) && gs[k].startSector * s == start * s + rs[k].start
  {
    hide Linked, WholeSectors, Sectors;
    SectorwiseCovered(s, rs[k].chunks);
    GroupAddress(start, s, rs[k].start);
  }

  /** Reading a group gives the raw data of its run, where no size is in the way; and all of
      it exactly when the chunks are whole. */
  lemma GroupIsRun(file: seq<byte>, hd: Header, start: nat, s: nat, r: Run)
    requires s > 0 && r.chunks != [] && Linked(file, hd, s, r.chunks) && Fits(hd, r.chunks)
    ensures var g := GroupOf(r, start, s);
            && GroupData(file, hd, g) == Data(file, r.chunks)
            && (|GroupPlaces(file, hd, g)| == g.bytes <==> Complete(file, r.chunks))
  {
    hide Linked, Fits, Places, RunPlaces, Data, Covered, Complete, Sectors, BytesAt;
    PlacesOfRun(file, hd, s, r.chunks);
    RunPlacesData(file, hd, s, r.chunks);
  }

  /** Every group is read whole. */
  ghost predicate AllRead(file: seq<byte>, hd: Header, gs: seq<Group>) {
    forall k | 0 <= k < |gs| :: |GroupPlaces(file, hd, gs[k])| == gs[k].bytes
  }

  lemma AllReadIsComplete(file: seq<byte>, hd: Header, start: nat, s: nat, rs: seq<Run>, gs: seq<Group>)
    requires s > 0 && Prepared(file, hd, start, s, rs, gs) && AllFit(hd, rs)
    ensures AllRead(file, hd, gs) <==> AllComplete(file, rs)
  {
    hide Prepared, Linked, Fits, GroupPlaces, GroupData, Data, Complete, GroupOf;
    forall k | 0 <= k < |gs|
      ensures k < |rs| && (|GroupPlaces(file, hd, gs[k])| == gs[k].bytes <==> Complete(file, rs[k].chunks))
    {
      PreparedGroup(file, hd, start, s, rs, gs, k);
      GroupIsRun(file, hd, start, s, rs[k]);
    }
    assert |gs| == |rs| by { PreparedLength(file, hd, start, s, rs, gs); }
  }

  lemma PreparedLength(file: seq<byte>, hd: Header, start: nat, s: nat, rs: seq<Run>, gs: seq<Group>)
    requires s > 0 && Prepared(file, hd, start, s, rs, gs)
    ensures |gs| == |rs|
  {
  }

  lemma NoGroupMoves(file: seq<byte>, hd: Header, s: nat)
    ensures GroupMoves(file, hd, [], s) == [] && Store(file, map[], []) == map[]
  {
  }

  /** The start sector of a group is the one of its first chunk in the image exactly when
      every chunk before it, raw or not, is below 2^32 bytes. */
  lemma StartExact(file: seq<byte>, hd: Header, start: nat, s: nat, cs: seq<Chunk>, gs: seq<Group>, k: nat)
    requires s > 0 && Prepared(file, hd, start, s, Runs(cs), gs) && Sized(hd, cs) && k < |gs|
    ensures k < |Runs(cs)| && Runs(cs)[k].first < |cs|
    ensures var before := cs[..Runs(cs)[k].first];
            gs[k].startSector * s == start * s + Offset(hd, before) <==> AllSmall(hd, before)
  {
    hide Prepared, Runs, AllSmall, Covered, Offset, Full, Linked;
    PreparedGroup(file, hd, start, s, Runs(cs), gs, k);
    RunStarts(cs, k);
    OffsetExact(hd, cs[..Runs(cs)[k].first]);
  }

  lemma {:induction false} SmallFits(hd: Header, run: seq<Chunk>)
    requires AllSmall(hd, run)
    ensures Fits(hd, run)
    decreases |run|
  {
    hide Covered, Full;
    if run != [] {
      assert Small(hd, run[0]);
      SmallFits(hd, run[1..]);
    }
  }

  /** Raw chunks below 2^32 bytes are no trouble for the reader. */
  lemma {:induction false} RawSmallFits(hd: Header, cs: seq<Chunk>)
    requires RawSmall(hd, cs)
    ensures forall k | 0 <= k < |Runs(cs)| :: AllSmall(hd, Runs(cs)[k].chunks)
    ensures AllFit(hd, Runs(cs))
  {
    hide Small, Fits;
    if cs != [] {
      SmallLast(hd, cs);
      RawSmallFits(hd, Init(cs));
    }
    forall k | 0 <= k < |Runs(cs)|
      ensures AllSmall(hd, Runs(cs)[k].chunks)
      ensures Fits(hd, Runs(cs)[k].chunks)
    {
      SmallFits(hd, Runs(cs)[k].chunks);
    }
  }

  /** The places of a run, all of whose data is there, do not depend on the file. */
  lemma {:induction false} WholePlaces(file: seq<byte>, run: seq<Chunk>)
    requires Complete(file, run) && forall i | 0 <= i < |run| :: run[i].raw
    ensures RunPlaces(file, run) == RawPlaces(run)
    decreases |run|
  {
    hide Complete;
    if run != [] {
      CompleteFront(file, run);
      WholePlaces(file, run[1..]);
      RawPlacesFront(run);
    }
  }

  lemma {:induction false} RawPlacesFront(run: seq<Chunk>)
    requires run != []
    ensures RawPlaces(run) == Span(run[0].data, run[0].bytes) + RawPlaces(run[1..])
  {
    hide *;
    var init, rest, n := run[..|run| - 1], run[1..], |run| - 1;
    var first, last := Span(run[0].data, run[0].bytes), Span(run[n].data, run[n].bytes);
    RawPlacesMore(init, run[n]);
    assert init + [run[n]] == run;
    if n == 0 {
      NoPlacesAtAll();
      assert init == [] && rest == [] && [] + first == first + [];
    } else {
      RawPlacesFront(init);
      RawPlacesMore(init[1..], run[n]);
      assert init[1..] + [run[n]] == rest;
      assert first + RawPlaces(init[1..]) + last == first + (RawPlaces(init[1..]) + last);
    }
  }

  /** What a group moves, if it can be read whole: the raw data of its run to its start. */
  lemma GroupMovesRun(file: seq<byte>, hd: Header, start: nat, s: nat, rs: seq<Run>, gs: seq<Group>, k: nat)
    requires s > 0 && Prepared(file, hd, start, s, rs, gs) && AllFit(hd, rs) && AllRead(file, hd, gs) && k < |gs|
    ensures |gs| == |rs|
    ensures Moves(gs[k].startSector * s, GroupPlaces(file, hd, gs[k])) == Moves(start * s + rs[k].start, RawPlaces(rs[k].chunks))
  {
    hide Prepared, Fits, Places, RunPlaces, RawPlaces, Data, Covered, Complete, Sectors, BytesAt, Moves, ChunkAt;
    PreparedGroup(file, hd, start, s, rs, gs, k);
    PlacesOfRun(file, hd, s, rs[k].chunks);
    RunPlacesData(file, hd, s, rs[k].chunks);
    WholePlaces(file, rs[k].chunks);
  }

  lemma {:induction false} GroupsMoveRuns(file: seq<byte>, hd: Header, start: nat, s: nat, rs: seq<Run>, gs: seq<Group>, k: nat)
    requires s > 0 && Prepared(file, hd, start, s, rs, gs) && AllFit(hd, rs) && AllRead(file, hd, gs)
    requires k <= |gs| && |gs| == |rs|
    ensures GroupMoves(file, hd, gs[..k], s) == RunMoves(rs[..k], start * s)
    decreases k
  {
    hide *;
    if k == 0 {
      NoGroupMoves(file, hd, s);
      NoMoves(start * s);
      assert gs[..0] == [] && rs[..0] == [];
    } else {
      GroupsMoveRuns(file, hd, start, s, rs, gs, k - 1);
      GroupMovesMore(file, hd, gs, k - 1, s);
      RunMovesMore(rs[..k - 1], rs[k - 1], start * s);
      assert rs[..k - 1] + [rs[k - 1]] == rs[..k];
      GroupMovesRun(file, hd, start, s, rs, gs, k - 1);
    }
  }

  lemma {:induction false} GroupMovesCount(file: seq<byte>, hd: Header, gs: seq<Group>, s: nat)
    requires AllRead(file, hd, gs)
    ensures |GroupMoves(file, hd, gs, s)| == GroupBytes(gs)
  {
    hide Moves, GroupPlaces;
    if gs != [] {
      assert |GroupPlaces(file, hd, gs[|gs| - 1])| == gs[|gs| - 1].bytes;
      GroupMovesCount(file, hd, Init(gs), s);
    }
  }

  /** The groups, read whole and written at their start sectors, take every byte from the
      place and to the address that the image says, and take all of them, exactly when no
      chunk that is raw, or has raw data behind it, has 2^32 bytes or more. */
  lemma GroupsExact(file: seq<byte>, hd: Header, start: nat, s: nat, cs: seq<Chunk>, gs: seq<Group>)
    requires s > 0 && Prepared(file, hd, start, s, Runs(cs), gs) && Sized(hd, cs)
    requires gs == Groups(cs, start, s) && AllRead(file, hd, gs)
    ensures GroupMoves(file, hd, gs, s) == ImageMoves(hd, cs, start * s) <==> Exact(hd, cs)
  {
    hide *;
    ExactIsSmall(hd, cs);
    if RawSmall(hd, cs) {
      RawSmallFits(hd, cs);
      PreparedLength(file, hd, start, s, Runs(cs), gs);
      GroupsMoveRuns(file, hd, start, s, Runs(cs), gs, |gs|);
      assert gs[..|gs|] == gs && Runs(cs)[..|gs|] == Runs(cs);
      ExpandIsRuns(hd, cs, start * s);
    } else {
      GroupMovesCount(file, hd, gs, s);
      GroupsHoldAllRaw(hd, cs, start, s);
      MovesCount(hd, cs, start * s);
    }
  }

  /** The meaning of the groups, for such an image: they can be read whole exactly when all
      raw data is in the file, and the device then holds the naive expansion. */
  lemma GroupsMeanImage(file: seq<byte>, hd: Header, start: nat, s: nat, cs: seq<Chunk>, gs: seq<Group>)
    requires s > 0 && Prepared(file, hd, start, s, Runs(cs), gs) && Sized(hd, cs)
    requires gs == Groups(cs, start, s) && Exact(hd, cs)
    ensures AllRead(file, hd, gs) <==> AllThere(file, hd, cs)
    ensures AllThere(file, hd, cs) ==> Store(file, map[], GroupMoves(file, hd, gs, s)) == Expand(file, hd, cs, start * s)
  {
    hide *;
    ExactIsSmall(hd, cs);
    RawSmallFits(hd, cs);
    AllReadIsComplete(file, hd, start, s, Runs(cs), gs);
    CompleteRuns(file, cs);
    ThereIsComplete(file, hd, cs);
    if AllThere(file, hd, cs) {
      GroupsExact(file, hd, start, s, cs, gs);
      ExpandIsStore(file, hd, cs, start * s);
    }
  }

  ghost predicate NoneEmpty(gs: seq<Group>) {
    forall k | 0 <= k < |gs| :: gs[k].bytes > 0
  }

  /** Main theorem. Programming an image ends well exactly when sparse_open accepts it, no
      group is without data, and every group can be read whole; every group is then written
      at its start sector as it was read. What is moved and where to is what the image says
      exactly when no chunk that is raw, or has raw data behind it, has 2^32 bytes or more.
      For such an image the groups can be read whole exactly when all raw data is in the
      file, and the device then holds the naive expansion: every raw byte in place, no other
      byte touched. */
  method ProgramSparse(file: seq<byte>, start: nat, s: nat, p: nat, tx: array<byte>) returns (r: Option<Device>)
    requires s > 0 && p > 0 && WholeSectors(p, s) && p <= tx.Length
    modifies tx
    ensures var o := OpenSpec(file, start, s);
            && (r.Some? <==> o.Opened? && NoneEmpty(o.groups) && AllRead(file, o.header, o.groups))
            && (r.Some? ==> r.value == Store(file, map[], GroupMoves(file, o.header, o.groups, s)))
    ensures var o := OpenSpec(file, start, s);
            o.Opened? ==>
              && ImageChunks(file, s).Some?
              && var cs := ImageChunks(file, s).value;
                 && (r.Some? ==> (GroupMoves(file, o.header, o.groups, s) == ImageMoves(o.header, cs, start * s)
                                  <==> Exact(o.header, cs)))
                 && (Exact(o.header, cs) ==>
                       && (r.Some? <==> NoneEmpty(o.groups) && AllThere(file, o.header, cs))
                       && (r.Some? ==> r.value == Expand(file, o.header, cs, start * s)))
  {
    hide *;
    var o := SparseOpen(file, start, s);
    if o.Exit? {
      return None;
    }
    Prepare(file, start, s);
    ghost var cs := ImageChunks(file, s).value;
    if AllRead(file, o.header, o.groups) { GroupsExact(file, o.header, start, s, cs, o.groups); }
    if Exact(o.header, cs) { GroupsMeanImage(file, o.header, start, s, cs, o.groups); }
    var device: Device := map[];
    NoGroupMoves(file, o.header, s);
    assert o.groups[..0] == [];
    for k := 0 to |o.groups|
      invariant forall j | 0 <= j < k :: o.groups[j].bytes > 0
                                         && |GroupPlaces(file, o.header, o.groups[j])| == o.groups[j].bytes
      invariant device == Store(file, map[], GroupMoves(file, o.header, o.groups[..k], s))
    {
      var g := o.groups[k];
      PreparedGroup(file, o.header, start, s, Runs(cs), o.groups, k);
      var sent := ProgramGroup(file, o.header, g, s, p, tx);
      if sent.Failed? {
        NotAll(file, o.header, o.groups, k);
        return None;
      }
      device := Write(device, g.startSector * s, Concat(sent.packets));
      StoreGroup(file, o.header, o.groups, k, s);
    }
    assert o.groups[..|o.groups|] == o.groups;
    All(file, o.header, o.groups);
    return Some(device);
  }

  lemma NotAll(file: seq<byte>, hd: Header, gs: seq<Group>, k: nat)
    requires k < |gs| && (gs[k].bytes == 0 || |GroupPlaces(file, hd, gs[k])| != gs[k].bytes)
    ensures !(NoneEmpty(gs) && AllRead(file, hd, gs))
  {
    hide GroupPlaces;
  }

  lemma All(file: seq<byte>, hd: Header, gs: seq<Group>)
    requires forall j | 0 <= j < |gs| :: gs[j].bytes > 0 && |GroupPlaces(file, hd, gs[j])| == gs[j].bytes
    ensures NoneEmpty(gs) && AllRead(file, hd, gs)
  {
    hide GroupPlaces;
  }
}
