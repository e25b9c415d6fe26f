/** What a sparse image means by the sizes in its headers, against what sparse_open of
    external/fh_loader/fh_loader.c makes of it with sizes cut to 32 bits. */
module SparseMeaning {
  import opened Bytes
  import opened Sparse
  import opened SparseRead
  import opened SparseRuns
  import opened Wrappers

  // ---------- Sizes and addresses ----------

  /** Where sparse_open counts the bytes, it counts them modulo 2^32. */
  ghost predicate Sized(hd: Header, cs: seq<Chunk>) {
    forall i | 0 <= i < |cs| :: cs[i].bytes == Full(hd, cs[i]) % WORD
  }

  lemma {:induction false} ChunksSized(file: seq<byte>, hd: Header, sector: nat, cs: seq<Chunk>)
    requires sector > 0 && Chunks(file, hd, sector, |cs|) == Some(cs)
    ensures Sized(hd, cs)
  {
    hide ChunkAt, Full;
    if cs != [] {
      SomePrefix(file, hd, sector, |cs| - 1, |cs|);
      ChunksSized(file, hd, sector, Init(cs));
      ChunkShape(file, hd, sector, Position(hd, Init(cs)));
      FullModulo(file, hd, sector, Last(cs));
      assert forall i | 0 <= i < |cs| - 1 :: cs[i] == Init(cs)[i];
    }
  }

  predicate Small(hd: Header, c: Chunk) { Full(hd, c) < WORD }

  predicate AllSmall(hd: Header, cs: seq<Chunk>) {
    forall i | 0 <= i < |cs| :: Small(hd, cs[i])
  }

  predicate RawSmall(hd: Header, cs: seq<Chunk>) {
    forall i | 0 <= i < |cs| :: cs[i].raw ==> Small(hd, cs[i])
  }

  lemma SizedLast(hd: Header, cs: seq<Chunk>)
    requires cs != [] && Sized(hd, cs)
    ensures Sized(hd, Init(cs))
    ensures Last(cs).bytes <= Full(hd, Last(cs)) && (Last(cs).bytes == Full(hd, Last(cs)) <==> Small(hd, Last(cs)))
  {
    hide Full;
    assert Last(cs).bytes == Full(hd, Last(cs)) % WORD;
    Modulo(Full(hd, Last(cs)));
  }

  lemma Modulo(n: nat)
    ensures n % WORD <= n && (n % WORD == n <==> n < WORD)
  {
  }

  lemma SmallLast(hd: Header, cs: seq<Chunk>)
    requires cs != []
    ensures AllSmall(hd, cs) <==> AllSmall(hd, Init(cs)) && Small(hd, Last(cs))
    ensures RawSmall(hd, cs) <==> RawSmall(hd, Init(cs)) && (Last(cs).raw ==> Small(hd, Last(cs)))
  {
    hide Small;
    assert forall i | 0 <= i < |cs| - 1 :: cs[i] == Init(cs)[i];
  }

  /** The bytes of the image before what follows the chunks. */
  function Offset(hd: Header, cs: seq<Chunk>): nat {
    if cs == [] then 0 else Offset(hd, Init(cs)) + Full(hd, Last(cs))
  }

  /** sparse_open counts right exactly when every chunk, raw or not, is below 2^32 bytes. */
  lemma {:induction false} OffsetExact(hd: Header, cs: seq<Chunk>)
    requires Sized(hd, cs)
    ensures Covered(cs) <= Offset(hd, cs)
    ensures Covered(cs) == Offset(hd, cs) <==> AllSmall(hd, cs)
  {
    hide Full, Sized, AllSmall, RawSmall, Small;
    if cs == [] {
      NoneSmall(hd);
    } else {
      SizedLast(hd, cs);
      SmallLast(hd, cs);
      OffsetExact(hd, Init(cs));
    }
  }

  lemma NoneSmall(hd: Header)
    ensures AllSmall(hd, []) && RawSmall(hd, []) && Sized(hd, [])
  {
  }

  /** Where the next chunk is by the size in the header. */
  function NextFull(hd: Header, c: Chunk): nat {
    if c.raw then c.data + Full(hd, c) else c.data
  }

  /** sparse_open walks from header to header as the full sizes say exactly when every raw
      chunk is below 2^32 bytes. */
  lemma WalkExact(hd: Header, cs: seq<Chunk>)
    requires Sized(hd, cs)
    ensures (forall i | 0 <= i < |cs| :: NextFull(hd, cs[i]) == Next(cs[i])) <==> RawSmall(hd, cs)
  {
    hide Full;
    forall i | 0 <= i < |cs|
      ensures NextFull(hd, cs[i]) == Next(cs[i]) <==> (cs[i].raw ==> Small(hd, cs[i]))
    {
      Modulo(Full(hd, cs[i]));
    }
  }

  /** The raw bytes of the image. */
  function RawBytes(hd: Header, cs: seq<Chunk>): nat {
    if cs == [] then 0 else RawBytes(hd, Init(cs)) + if Last(cs).raw then Full(hd, Last(cs)) else 0
  }

  lemma {:induction false} RawExact(hd: Header, cs: seq<Chunk>)
    requires Sized(hd, cs)
    ensures RawCovered(cs) <= RawBytes(hd, cs)
    ensures RawCovered(cs) == RawBytes(hd, cs) <==> RawSmall(hd, cs)
  {
    hide Full, Sized, AllSmall, RawSmall, Small;
    if cs == [] {
      NoneSmall(hd);
    } else {
      SizedLast(hd, cs);
      SmallLast(hd, cs);
      RawExact(hd, Init(cs));
    }
  }

  /** No raw byte is left out or sent twice, exactly when every raw chunk is below 2^32
      bytes. */
  lemma GroupsHoldAllRaw(hd: Header, cs: seq<Chunk>, start: nat, sector: nat)
    requires sector > 0 && Sized(hd, cs)
    ensures GroupBytes(Groups(cs, start, sector)) == RawBytes(hd, cs) <==> RawSmall(hd, cs)
  {
    hide *;
    GroupBytesAre(cs, start, sector);
    RawExact(hd, cs);
  }

  // ---------- The naive expansion ----------

  /** A storage device: the bytes that have been written. */
  type Device = map<nat, byte>

  function ByteAt(data: seq<byte>, at: nat, i: int): byte
    requires at <= i < at + |data|
  {
    data[i - at]
  }

  function Write(m: Device, at: nat, data: seq<byte>): Device {
    m + map i | at <= i < at + |data| :: ByteAt(data, at, i)
  }

  /** Chunk by chunk from address base, raw chunks written, the others stepped over. */
  function Expand(file: seq<byte>, hd: Header, cs: seq<Chunk>, base: nat): Device {
    if cs == [] then map[]
    else
      var m, c := Expand(file, hd, Init(cs), base), Last(cs);
      if c.raw then Write(m, base + Offset(hd, Init(cs)), Fread(file, c.data, Full(hd, c))) else m
  }

  /** All raw data of the image is in the file. */
  ghost predicate AllThere(file: seq<byte>, hd: Header, cs: seq<Chunk>) {
    forall i | 0 <= i < |cs| :: There(file, hd, cs[i])
  }

  predicate There(file: seq<byte>, hd: Header, c: Chunk) {
    c.raw && Full(hd, c) > 0 ==> c.data + Full(hd, c) <= |file|
  }

  lemma ThereLast(file: seq<byte>, hd: Header, cs: seq<Chunk>)
    requires cs != [] && AllThere(file, hd, cs)
    ensures AllThere(file, hd, Init(cs)) && There(file, hd, Last(cs))
  {
    hide There;
  }

  /** The same as for sparse_open, as long as raw chunks are below 2^32 bytes. */
  lemma ThereIsComplete(file: seq<byte>, hd: Header, cs: seq<Chunk>)
    requires Sized(hd, cs) && RawSmall(hd, cs)
    ensures AllThere(file, hd, cs) <==> Complete(file, cs)
  {
    hide Full;
    forall i | 0 <= i < |cs|
      ensures There(file, hd, cs[i]) <==> Whole(file, cs[i])
    {
      Modulo(Full(hd, cs[i]));
    }
  }

  /** The image has a raw byte at offset x. */
  predicate RawAt(hd: Header, cs: seq<Chunk>, x: int) {
    cs != []
    && (RawAt(hd, Init(cs), x) || (Last(cs).raw && Offset(hd, Init(cs)) <= x < Offset(hd, cs)))
  }

  /** Exactly the raw bytes are written: no DONT_CARE byte is touched. */
  lemma {:induction false} ExpandTouches(file: seq<byte>, hd: Header, cs: seq<Chunk>, base: nat, a: nat)
    requires AllThere(file, hd, cs)
    ensures a in Expand(file, hd, cs, base) <==> RawAt(hd, cs, a - base)
  {
    hide Full, AllThere;
    if cs != [] {
      ThereLast(file, hd, cs);
      ExpandTouches(file, hd, Init(cs), base, a);
    }
  }

  // ---------- Bytes from places to addresses ----------

  /** The byte at a place of the file goes to an address of the device. */
  datatype Move = Move(to: nat, from: nat)

  function Moves(to: nat, from: seq<nat>): (ms: seq<Move>)
    ensures |ms| == |from| && forall i | 0 <= i < |ms| :: ms[i] == Move(to + i, from[i])
  {
    seq(|from|, i requires 0 <= i < |from| => Move(to + i, from[i]))
  }

  lemma MovesAppend(to: nat, a: seq<nat>, b: seq<nat>)
    ensures Moves(to, a + b) == Moves(to, a) + Moves(to + |a|, b)
  {
  }

  /** The moves that the image asks for. */
  function ImageMoves(hd: Header, cs: seq<Chunk>, base: nat): seq<Move> {
    if cs == [] then []
    else
      var c := Last(cs);
      ImageMoves(hd, Init(cs), base)
      + if c.raw then Moves(base + Offset(hd, Init(cs)), Span(c.data, Full(hd, c))) else []
  }

  /** The same with the sizes of sparse_open. */
  function OpenMoves(cs: seq<Chunk>, base: nat): seq<Move> {
    if cs == [] then []
    else
      var c := Last(cs);
      OpenMoves(Init(cs), base) + if c.raw then Moves(base + Covered(Init(cs)), Span(c.data, c.bytes)) else []
  }

  lemma {:induction false} MovesCount(hd: Header, cs: seq<Chunk>, base: nat)
    ensures |ImageMoves(hd, cs, base)| == RawBytes(hd, cs) && |OpenMoves(cs, base)| == RawCovered(cs)
  {
    hide Full;
    if cs != [] { MovesCount(hd, Init(cs), base); }
  }

  /** No raw data behind chunk i. */
  predicate NoneBehind(hd: Header, cs: seq<Chunk>, i: nat) {
    forall j | i < j < |cs| :: cs[j].raw ==> Full(hd, cs[j]) == 0
  }

  /** No chunk that is raw, or has raw data behind it, has 2^32 bytes or more. */
  predicate Exact(hd: Header, cs: seq<Chunk>) {
    forall i | 0 <= i < |cs| :: Small(hd, cs[i]) || (!cs[i].raw && NoneBehind(hd, cs, i))
  }

  lemma ExactLast(hd: Header, cs: seq<Chunk>)
    requires cs != []
    ensures Exact(hd, cs) <==> && Exact(hd, Init(cs))
                               && (Last(cs).raw ==> Small(hd, Last(cs)))
                               && (Last(cs).raw && Full(hd, Last(cs)) > 0 ==> AllSmall(hd, Init(cs)))
  {
    hide Full, Small;
    var n, init := |cs| - 1, Init(cs);
    assert forall i | 0 <= i < n :: cs[i] == init[i];
    forall i: nat | i < n
      ensures NoneBehind(hd, cs, i) <==> NoneBehind(hd, init, i) && (cs[n].raw ==> Full(hd, cs[n]) == 0)
    {
      BehindLast(hd, cs, i);
    }
    assert NoneBehind(hd, cs, n);
  }

  lemma BehindLast(hd: Header, cs: seq<Chunk>, i: nat)
    requires i + 1 < |cs|
    ensures NoneBehind(hd, cs, i) <==> NoneBehind(hd, Init(cs), i) && (Last(cs).raw ==> Full(hd, Last(cs)) == 0)
  {
    hide Full;
    var n, init := |cs| - 1, Init(cs);
    if NoneBehind(hd, cs, i) {
      assert forall j | i < j < |init| :: init[j] == cs[j];
    }
    if NoneBehind(hd, init, i) && (Last(cs).raw ==> Full(hd, Last(cs)) == 0) {
      forall j | i < j < |cs|
        ensures cs[j].raw ==> Full(hd, cs[j]) == 0
      {
        if j < n { assert init[j] == cs[j]; }
      }
    }
  }

  lemma {:induction false} ExactIsSmall(hd: Header, cs: seq<Chunk>)
    ensures Exact(hd, cs) ==> RawSmall(hd, cs)
    ensures AllSmall(hd, cs) ==> Exact(hd, cs)
  {
  }

  /** Moves side by side, the back parts of the same length. */
  lemma SameParts(a: seq<Move>, b: seq<Move>, x: seq<Move>, y: seq<Move>)
    requires |x| == |y|
    ensures a + x == b + y <==> a == b && x == y
  {
    if a + x == b + y {
      assert |a| == |b|;
      assert a == (a + x)[..|a|] && b == (b + y)[..|b|];
      assert x == (a + x)[|a|..] && y == (b + y)[|b|..];
    }
  }

  lemma SameAddress(a: nat, b: nat, from: seq<nat>)
    ensures Moves(a, from) == Moves(b, from) <==> from == [] || a == b
  {
    if from != [] && Moves(a, from) == Moves(b, from) {
      assert Moves(a, from)[0] == Move(a, from[0]) && Moves(b, from)[0] == Move(b, from[0]);
    }
  }

  /** The moves of sparse_open are those of the image exactly when no chunk that is raw, or
      has raw data behind it, has 2^32 bytes or more. */
  lemma {:induction false} OpenExact(hd: Header, cs: seq<Chunk>, base: nat)
    requires Sized(hd, cs)
    ensures OpenMoves(cs, base) == ImageMoves(hd, cs, base) <==> Exact(hd, cs)
  {
    hide Full, Sized, Exact, AllSmall, RawSmall, Small, Moves, Covered, Offset;
    ExactIsSmall(hd, cs);
    if cs == [] {
      NoneSmall(hd);
    } else if !RawSmall(hd, cs) {
      MovesCount(hd, cs, base);
      RawExact(hd, cs);
    } else {
      var c, init := Last(cs), Init(cs);
      SizedLast(hd, cs);
      SmallLast(hd, cs);
      ExactLast(hd, cs);
      OpenExact(hd, init, base);
      OffsetExact(hd, init);
      if c.raw {
        var from := Span(c.data, c.bytes);
        SameParts(OpenMoves(init, base), ImageMoves(hd, init, base),
                  Moves(base + Covered(init), from), Moves(base + Offset(hd, init), from));
        SameAddress(base + Covered(init), base + Offset(hd, init), from);
      } else {
        SameParts(OpenMoves(init, base), ImageMoves(hd, init, base), [], []);
      }
    }
  }

  // ---------- Runs ----------

  /** The places of the raw data of a run, and the moves of all runs. */
  function RawPlaces(run: seq<Chunk>): seq<nat> {
    if run == [] then [] else RawPlaces(Init(run)) + Span(Last(run).data, Last(run).bytes)
  }

  function RunMoves(rs: seq<Run>, base: nat): seq<Move> {
    if rs == [] then [] else RunMoves(Init(rs), base) + Moves(base + Last(rs).start, RawPlaces(Last(rs).chunks))
  }

  lemma RawPlacesMore(run: seq<Chunk>, c: Chunk)
    ensures RawPlaces(run + [c]) == RawPlaces(run) + Span(c.data, c.bytes)
  {
    assert Init(run + [c]) == run;
  }

  lemma RunMovesMore(rs: seq<Run>, r: Run, base: nat)
    ensures RunMoves(rs + [r], base) == RunMoves(rs, base) + Moves(base + r.start, RawPlaces(r.chunks))
  {
    assert Init(rs + [r]) == rs;
  }

  lemma {:induction false} RawPlacesCount(run: seq<Chunk>)
    ensures |RawPlaces(run)| == Covered(run)
  {
    if run != [] { RawPlacesCount(Init(run)); }
  }

  lemma {:induction false} OpenMovesAreRuns(cs: seq<Chunk>, base: nat)
    ensures OpenMoves(cs, base) == RunMoves(Runs(cs), base)
  {
    hide *;
    if cs == [] {
      NoMoves(base);
    } else {
      var n := |cs| - 1;
      var init, c := cs[..n], cs[n];
      OpenMovesAreRuns(init, base);
      MovesLast(cs, base);
      RunsLast(cs);
      if c.raw {
        if EndsRaw(init) {
          LastRunEnds(init);
          RunGrows(Runs(init), c, base);
        } else {
          RunMovesMore(Runs(init), Run(n, Covered(init), [c]), base);
          OnePlace(c);
        }
      }
    }
  }

  lemma MovesLast(cs: seq<Chunk>, base: nat)
    requires cs != []
    ensures var init, c := cs[..|cs| - 1], cs[|cs| - 1];
            OpenMoves(cs, base) == if c.raw then OpenMoves(init, base) + Moves(base + Covered(init), Span(c.data, c.bytes))
                                   else OpenMoves(init, base)
  {
    hide Moves;
  }

  lemma RunsLast(cs: seq<Chunk>)
    requires cs != []
    ensures var n := |cs| - 1;
            var rs, c := Runs(cs[..n]), cs[n];
            && (!c.raw ==> Runs(cs) == rs)
            && (c.raw && EndsRaw(cs[..n]) ==> rs != [] && Runs(cs) == Init(rs) + [Last(rs).(chunks := Last(rs).chunks + [c])])
            && (c.raw && !EndsRaw(cs[..n]) ==> Runs(cs) == rs + [Run(n, Covered(cs[..n]), [c])])
  {
  }

  lemma OnePlace(c: Chunk)
    ensures RawPlaces([c]) == Span(c.data, c.bytes)
  {
    RawPlacesMore([], c);
    assert [] + [c] == [c];
  }

  lemma NoMoves(base: nat)
    ensures RunMoves([], base) == [] == OpenMoves([], base) && Runs([]) == []
  {
  }

  lemma NoPlacesAtAll()
    ensures RawPlaces([]) == []
  {
  }

  /** A run that grows by a chunk moves that chunk right behind the others. */
  lemma RunGrows(rs: seq<Run>, c: Chunk, base: nat)
    requires rs != []
    ensures var r := Last(rs);
            RunMoves(Init(rs) + [r.(chunks := r.chunks + [c])], base)
            == RunMoves(rs, base) + Moves(base + r.start + Covered(r.chunks), Span(c.data, c.bytes))
  {
    hide Moves, RawPlaces, RunMoves, Covered;
    var r := Last(rs);
    var ps, more := RawPlaces(r.chunks), Span(c.data, c.bytes);
    RunMovesMore(Init(rs), r, base);
    assert Init(rs) + [r] == rs;
    RunMovesMore(Init(rs), r.(chunks := r.chunks + [c]), base);
    RawPlacesMore(r.chunks, c);
    RawPlacesCount(r.chunks);
    MovesAppend(base + r.start, ps, more);
    assert RunMoves(Init(rs), base) + (Moves(base + r.start, ps) + Moves(base + r.start + |ps|, more))
        == RunMoves(Init(rs), base) + Moves(base + r.start, ps) + Moves(base + r.start + |ps|, more);
  }

  /** Main theorem. Moving the raw data of every run to its start is what the image asks for,
      exactly when no chunk that is raw, or has raw data behind it, has 2^32 bytes or more. */
  lemma ExpandIsRuns(hd: Header, cs: seq<Chunk>, base: nat)
    requires Sized(hd, cs)
    ensures RunMoves(Runs(cs), base) == ImageMoves(hd, cs, base) <==> Exact(hd, cs)
  {
    hide *;
    OpenMovesAreRuns(cs, base);
    OpenExact(hd, cs, base);
  }

  // ---------- From moves to the device ----------

  ghost predicate FromFile(file: seq<byte>, ms: seq<Move>) {
    forall i | 0 <= i < |ms| :: ms[i].from < |file|
  }

  /** The device after some moves. */
  function Store(file: seq<byte>, m: Device, ms: seq<Move>): Device
    requires FromFile(file, ms)
  {
    if ms == [] then m else Store(file, m, Init(ms))[Last(ms).to := file[Last(ms).from]]
  }

  lemma {:induction false} StoreAppend(file: seq<byte>, m: Device, a: seq<Move>, b: seq<Move>)
    requires FromFile(file, a) && FromFile(file, b)
    ensures FromFile(file, a + b) && Store(file, m, a + b) == Store(file, Store(file, m, a), b)
    decreases |b|
  {
    if b == [] {
      assert a + b == a;
    } else {
      StoreAppend(file, m, a, Init(b));
      assert Init(a + b) == a + Init(b) && Last(a + b) == Last(b);
    }
  }

  lemma MovesFromFile(file: seq<byte>, to: nat, from: seq<nat>)
    requires InFile(file, from)
    ensures FromFile(file, Moves(to, from))
  {
  }

  /** Writing the bytes at some places is moving them one by one. */
  lemma {:induction false} WriteIsStore(file: seq<byte>, m: Device, to: nat, from: seq<nat>)
    requires InFile(file, from)
    ensures FromFile(file, Moves(to, from)) && Write(m, to, BytesAt(file, from)) == Store(file, m, Moves(to, from))
    decreases |from|
  {
    hide Write, BytesAt, Moves, FromFile;
    MovesFromFile(file, to, from);
    if from == [] {
      WriteNothing(file, m, to);
    } else {
      WriteOneMore(file, m, to, from);
      WriteIsStore(file, m, to, Init(from));
      assert Init(Moves(to, from)) == Moves(to, Init(from));
    }
  }

  lemma WriteNothing(file: seq<byte>, m: Device, to: nat)
    ensures Write(m, to, BytesAt(file, [])) == m && Moves(to, []) == []
  {
  }

  lemma WriteOneMore(file: seq<byte>, m: Device, to: nat, from: seq<nat>)
    requires InFile(file, from) && from != []
    ensures InFile(file, Init(from))
    ensures Write(m, to, BytesAt(file, from)) == Write(m, to, BytesAt(file, Init(from)))[to + |from| - 1 := file[Last(from)]]
  {
  }

  /** The naive expansion is the device after the moves of the image. */
  lemma {:induction false} ExpandIsStore(file: seq<byte>, hd: Header, cs: seq<Chunk>, base: nat)
    requires AllThere(file, hd, cs)
    ensures FromFile(file, ImageMoves(hd, cs, base))
    ensures Expand(file, hd, cs, base) == Store(file, map[], ImageMoves(hd, cs, base))
  {
    hide Full, AllThere, Write, Store, Moves, BytesAt, FromFile, Offset;
    if cs == [] {
      StoreNothing(file);
    } else {
      ThereLast(file, hd, cs);
      ExpandIsStore(file, hd, Init(cs), base);
      var c, n := Last(cs), Full(hd, Last(cs));
      if c.raw {
        BytesAtSpan(file, c.data, n);
        WriteIsStore(file, Expand(file, hd, Init(cs), base), base + Offset(hd, Init(cs)), Span(c.data, n));
        StoreAppend(file, map[], ImageMoves(hd, Init(cs), base), Moves(base + Offset(hd, Init(cs)), Span(c.data, n)));
      } else {
        assert ImageMoves(hd, Init(cs), base) + [] == ImageMoves(hd, Init(cs), base);
      }
    }
  }

  lemma StoreNothing(file: seq<byte>)
    ensures FromFile(file, []) && Store(file, map[], []) == map[]
  {
  }
}
