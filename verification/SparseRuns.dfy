/** What sparse_read finds in a group that sparse_open made: the raw data of its chunks,
    exactly when no size that matters is cut to 32 bits. */
module SparseRuns {
  import opened Bytes
  import opened Sparse
  import opened SparseRead
  import opened Wrappers

  lemma FullModulo(file: seq<byte>, hd: Header, sector: nat, c: Chunk)
    requires sector > 0 && ChunkAt(file, hd, sector, c.at) == Some(c)
    ensures c.bytes == Full(hd, c) % WORD < WORD
    ensures Full(hd, c) == c.bytes <==> Full(hd, c) < WORD
  {
  }

  /** sparse_open and read_chunk_header agree about a raw chunk exactly when it has fewer
      than 2^32 bytes. */
  lemma HeaderExact(file: seq<byte>, hd: Header, sector: nat, c: Chunk)
    requires sector > 0 && c.raw && ChunkAt(file, hd, sector, c.at) == Some(c)
    ensures HeaderAfter(file, hd, c.at) == Some(Found(c.data, Full(hd, c)))
    ensures HeaderAfter(file, hd, c.at) == Some(Found(c.data, c.bytes)) <==> Full(hd, c) < WORD
  {
    hide *;
    FullModulo(file, hd, sector, c);
    FoundAt(file, hd, sector, c);
  }

  lemma FoundAt(file: seq<byte>, hd: Header, sector: nat, c: Chunk)
    requires sector > 0 && c.raw && ChunkAt(file, hd, sector, c.at) == Some(c)
    ensures HeaderAfter(file, hd, c.at) == Some(Found(c.data, Full(hd, c)))
    ensures c.at + CHUNK_HEADER_LEN <= |file| && c.at + CHUNK_HEADER_LEN <= c.data
  {
  }

  /** Raw chunks of an accepted image, one right after the other. */
  ghost predicate Linked(file: seq<byte>, hd: Header, sector: nat, run: seq<Chunk>)
    requires sector > 0
  {
    && (forall i | 0 <= i < |run| :: run[i].raw && ChunkAt(file, hd, sector, run[i].at) == Some(run[i]))
    && (forall i | 0 < i < |run| :: run[i].at == Next(run[i - 1]))
  }

  lemma LinkedFirst(file: seq<byte>, hd: Header, sector: nat, run: seq<Chunk>)
    requires sector > 0 && Linked(file, hd, sector, run) && run != []
    ensures run[0].raw && ChunkAt(file, hd, sector, run[0].at) == Some(run[0])
    ensures Linked(file, hd, sector, run[1..])
    ensures |run| > 1 ==> run[1].at == run[0].data + run[0].bytes
  {
    hide ChunkAt;
  }

  lemma {:induction false} CoveredFront(cs: seq<Chunk>)
    requires cs != []
    ensures Covered(cs) == cs[0].bytes + Covered(cs[1..])
  {
    if |cs| > 1 {
      CoveredFront(Init(cs));
      assert Init(cs)[1..] == Init(cs[1..]);
    }
  }

  lemma {:induction false} DataFront(file: seq<byte>, cs: seq<Chunk>)
    requires cs != []
    ensures Data(file, cs) == Payload(file, cs[0]) + Data(file, cs[1..])
  {
    hide Payload;
    if |cs| == 1 {
      assert Init(cs) == [];
    } else {
      DataFront(file, Init(cs));
      assert Init(cs)[1..] == Init(cs[1..]);
    }
  }

  // ---------- A run ----------

  /** The places of the raw data, as far as the file has it. */
  function RunPlaces(file: seq<byte>, run: seq<Chunk>): seq<nat> {
    if run == [] then []
    else Span(run[0].data, Available(file, run[0].data, run[0].bytes)) + RunPlaces(file, run[1..])
  }

  /** A chunk of 2^32 bytes or more has no data behind it in its group. */
  predicate Fits(hd: Header, run: seq<Chunk>) {
    run == [] || ((Full(hd, run[0]) < WORD || Covered(run[1..]) == 0) && Fits(hd, run[1..]))
  }

  /** The places of a group, from its offset in the file and its size. */
  function GroupPlaces(file: seq<byte>, hd: Header, g: Group): (ps: seq<nat>)
    ensures |ps| <= g.bytes && InFile(file, ps)
  {
    Places(file, hd, g.fileOffset, 0, g.bytes)
  }

  lemma {:induction false} NothingToRead(file: seq<byte>, run: seq<Chunk>)
    requires Covered(run) == 0
    ensures RunPlaces(file, run) == []
    decreases |run|
  {
    if run != [] {
      CoveredFront(run);
      NothingToRead(file, run[1..]);
    }
  }

  lemma {:induction false} NothingFits(hd: Header, run: seq<Chunk>)
    requires Covered(run) == 0
    ensures Fits(hd, run)
    decreases |run|
  {
    hide Full;
    if run != [] {
      CoveredFront(run);
      NothingFits(hd, run[1..]);
    }
  }

  /** All raw data lies behind the header of the first chunk. */
  lemma {:induction false} PlacesBehind(file: seq<byte>, hd: Header, sector: nat, run: seq<Chunk>, i: nat)
    requires sector > 0 && Linked(file, hd, sector, run) && run != [] && i < |RunPlaces(file, run)|
    ensures RunPlaces(file, run)[i] > run[0].at
    decreases |run|
  {
    hide ChunkAt, Linked, HeaderAfter;
    LinkedFirst(file, hd, sector, run);
    FoundAt(file, hd, sector, run[0]);
    var n := Available(file, run[0].data, run[0].bytes);
    if i >= n {
      PlacesBehind(file, hd, sector, run[1..], i - n);
    }
  }

  /** The reads of a chunk that is not too large, and those behind it. */
  lemma SmallFirst(file: seq<byte>, hd: Header, sector: nat, run: seq<Chunk>)
    requires sector > 0 && Linked(file, hd, sector, run) && run != [] && Covered(run) > 0 && Full(hd, run[0]) < WORD
    ensures |run| == 1 ==> Places(file, hd, run[0].at, 0, Covered(run)) == RunPlaces(file, run)
    ensures |run| > 1 ==> Places(file, hd, run[0].at, 0, Covered(run))
                          == Span(run[0].data, run[0].bytes) + Places(file, hd, run[1].at, 0, Covered(run[1..]))
  {
    hide ChunkAt, Linked, HeaderAfter, Full, Covered;
    var c, rest := run[0], run[1..];
    LinkedFirst(file, hd, sector, run);
    HeaderExact(file, hd, sector, c);
    PlacesHeader(file, hd, c.at, Covered(run));
    CoveredFront(run);
    if |run| == 1 {
      assert rest == [];
      NoneCovered();
    } else {
      LinkedFirst(file, hd, sector, rest);
      FoundAt(file, hd, sector, run[1]);
    }
  }

  lemma NoneCovered()
    ensures Covered([]) == 0
  {
  }

  /** A chunk of 2^32 bytes or more: the bytes wanted are read on from its start, headers
      included. */
  lemma LargeFirst(file: seq<byte>, hd: Header, sector: nat, run: seq<Chunk>)
    requires sector > 0 && Linked(file, hd, sector, run) && run != [] && Covered(run) > 0 && Full(hd, run[0]) >= WORD
    ensures var ps := Places(file, hd, run[0].at, 0, Covered(run));
            if Covered(run[1..]) == 0 then ps == Span(run[0].data, Available(file, run[0].data, run[0].bytes))
            else |ps| > run[0].bytes && ps[run[0].bytes] == run[0].data + run[0].bytes
  {
    hide ChunkAt, Linked, HeaderAfter, Full, Covered;
    var c, rest := run[0], run[1..];
    LinkedFirst(file, hd, sector, run);
    FullModulo(file, hd, sector, c);
    FoundAt(file, hd, sector, c);
    PlacesHeader(file, hd, c.at, Covered(run));
    CoveredFront(run);
    if Covered(rest) > 0 {
      NoneCovered();
      assert rest != [];
      LinkedFirst(file, hd, sector, rest);
      FoundAt(file, hd, sector, run[1]);
      PlacesSplit(file, hd, c.data, Full(hd, c), Covered(run), c.bytes + 1);
    }
  }

  /** Main theorem. Reading a group visits exactly the places of its raw data, and no header
      in between, if and only if no chunk of 2^32 bytes or more has data behind it. */
  lemma {:induction false} PlacesOfRun(file: seq<byte>, hd: Header, sector: nat, run: seq<Chunk>)
    requires sector > 0 && Linked(file, hd, sector, run) && run != []
    ensures Places(file, hd, run[0].at, 0, Covered(run)) == RunPlaces(file, run) <==> Fits(hd, run)
    decreases |run|
  {
    hide ChunkAt, Linked, HeaderAfter, Full, Covered, Places;
    var c, rest := run[0], run[1..];
    if Covered(run) == 0 {
      NoPlaces(file, hd, c.at);
      NothingToRead(file, run);
      NothingFits(hd, run);
    } else if Full(hd, c) < WORD {
      SmallFirst(file, hd, sector, run);
      if |run| > 1 {
        LinkedFirst(file, hd, sector, run);
        LinkedFirst(file, hd, sector, rest);
        FoundAt(file, hd, sector, run[1]);
        PlacesOfRun(file, hd, sector, rest);
        SameBack(Span(c.data, c.bytes), Places(file, hd, run[1].at, 0, Covered(rest)), RunPlaces(file, rest));
      }
    } else {
      LargeFirst(file, hd, sector, run);
      LargeDiffers(file, hd, sector, run);
    }
  }

  lemma SameBack(x: seq<nat>, y: seq<nat>, z: seq<nat>)
    ensures x + y == x + z <==> y == z
  {
    if x + y == x + z {
      assert y == (x + y)[|x|..] && z == (x + z)[|x|..];
    }
  }

  lemma NoPlaces(file: seq<byte>, hd: Header, pos: nat)
    ensures Places(file, hd, pos, 0, 0) == []
  {
  }

  lemma LargeDiffers(file: seq<byte>, hd: Header, sector: nat, run: seq<Chunk>)
    requires sector > 0 && Linked(file, hd, sector, run) && run != [] && Full(hd, run[0]) >= WORD
    ensures Covered(run[1..]) == 0 ==> Fits(hd, run)
                                       && RunPlaces(file, run) == Span(run[0].data, Available(file, run[0].data, run[0].bytes))
    ensures Covered(run[1..]) > 0 ==> !Fits(hd, run)
    ensures Covered(run[1..]) > 0 && |RunPlaces(file, run)| > run[0].bytes ==>
              RunPlaces(file, run)[run[0].bytes] != run[0].data + run[0].bytes
  {
    hide ChunkAt, Linked, HeaderAfter, Full, Covered;
    var c, rest := run[0], run[1..];
    if Covered(rest) == 0 {
      NothingToRead(file, rest);
      NothingFits(hd, rest);
    } else {
      NoneCovered();
      assert rest != [];
      LinkedFirst(file, hd, sector, run);
      LinkedFirst(file, hd, sector, rest);
      FoundAt(file, hd, sector, run[1]);
      if |RunPlaces(file, run)| > c.bytes {
        PlacesBehind(file, hd, sector, rest, 0);
      }
    }
  }

  /** The bytes at those places are the raw data, all of it exactly when every chunk is
      whole. */
  lemma {:induction false} RunPlacesData(file: seq<byte>, hd: Header, sector: nat, run: seq<Chunk>)
    requires sector > 0 && Linked(file, hd, sector, run)
    ensures InFile(file, RunPlaces(file, run)) && BytesAt(file, RunPlaces(file, run)) == Data(file, run)
    ensures |RunPlaces(file, run)| <= Covered(run)
    ensures |RunPlaces(file, run)| == Covered(run) <==> Complete(file, run)
    decreases |run|
  {
    hide ChunkAt, Linked, BytesAt;
    if run == [] {
      assert BytesAt(file, []) == [];
    } else {
      hide Data, Covered;
      var c, rest := run[0], run[1..];
      LinkedFirst(file, hd, sector, run);
      RunPlacesData(file, hd, sector, rest);
      DataFront(file, run);
      CoveredFront(run);
      CompleteFront(file, run);
      var n := Available(file, c.data, c.bytes);
      BytesAtSpan(file, c.data, n);
      FreadPart(file, c.data, c.bytes);
      JoinPlaces(file, Span(c.data, n), RunPlaces(file, rest));
    }
  }

  lemma JoinPlaces(file: seq<byte>, a: seq<nat>, b: seq<nat>)
    requires InFile(file, a) && InFile(file, b)
    ensures InFile(file, a + b) && BytesAt(file, a + b) == BytesAt(file, a) + BytesAt(file, b)
  {
    assert InFile(file, a + b);
    hide BytesAt;
    BytesAtAppend(file, a, b);
  }

  lemma FreadPart(file: seq<byte>, at: nat, n: nat)
    ensures Fread(file, at, n) == Fread(file, at, Available(file, at, n))
    ensures Available(file, at, n) == n <==> n == 0 || at + n <= |file|
  {
  }

  lemma CompleteFront(file: seq<byte>, run: seq<Chunk>)
    requires run != []
    ensures Complete(file, run) <==> Whole(file, run[0]) && Complete(file, run[1..])
  {
    hide Whole;
    if Whole(file, run[0]) && Complete(file, run[1..]) {
      forall i | 0 <= i < |run|
        ensures Whole(file, run[i])
      {
        if i > 0 { assert run[1..][i - 1] == run[i]; }
      }
    }
  }

  // ---------- The image ----------

  lemma LinkedAppend(file: seq<byte>, hd: Header, sector: nat, run: seq<Chunk>, c: Chunk)
    requires sector > 0 && Linked(file, hd, sector, run)
    requires c.raw && ChunkAt(file, hd, sector, c.at) == Some(c)
    requires run != [] ==> c.at == Next(Last(run))
    ensures Linked(file, hd, sector, run + [c])
  {
    hide ChunkAt;
  }

  lemma LinkedNone(file: seq<byte>, hd: Header, sector: nat)
    requires sector > 0
    ensures Linked(file, hd, sector, [])
  {
  }

  ghost predicate AllLinked(file: seq<byte>, hd: Header, sector: nat, rs: seq<Run>)
    requires sector > 0
  {
    forall k | 0 <= k < |rs| :: Linked(file, hd, sector, rs[k].chunks)
  }

  /** Every group of an accepted image is such a run. */
  lemma {:induction false} RunsLinked(file: seq<byte>, hd: Header, sector: nat, cs: seq<Chunk>)
    requires sector > 0 && Chunks(file, hd, sector, |cs|) == Some(cs)
    ensures AllLinked(file, hd, sector, Runs(cs))
    ensures EndsRaw(cs) ==> Last(Last(Runs(cs)).chunks) == Last(cs)
  {
    hide ChunkAt, Linked, AllLinked, Covered;
    if cs == [] {
      NoRunsLinked(file, hd, sector);
    } else {
      SomePrefix(file, hd, sector, |cs| - 1, |cs|);
      RunsLinked(file, hd, sector, Init(cs));
      var rs, c := Runs(Init(cs)), Last(cs);
      ChunkShape(file, hd, sector, Position(hd, Init(cs)));
      if c.raw {
        if EndsRaw(Init(cs)) {
          var r := Last(rs);
          AllLinkedInit(file, hd, sector, rs);
          LinkedAppend(file, hd, sector, r.chunks, c);
          AllLinkedMore(file, hd, sector, Init(rs), r.(chunks := r.chunks + [c]));
        } else {
          LinkedNone(file, hd, sector);
          LinkedAppend(file, hd, sector, [], c);
          assert [] + [c] == [c];
          AllLinkedMore(file, hd, sector, rs, Run(|cs| - 1, Covered(Init(cs)), [c]));
        }
      }
    }
  }

  lemma NoRunsLinked(file: seq<byte>, hd: Header, sector: nat)
    requires sector > 0
    ensures AllLinked(file, hd, sector, Runs([]))
  {
  }

  lemma AllLinkedInit(file: seq<byte>, hd: Header, sector: nat, rs: seq<Run>)
    requires sector > 0 && rs != [] && AllLinked(file, hd, sector, rs)
    ensures AllLinked(file, hd, sector, Init(rs)) && Linked(file, hd, sector, Last(rs).chunks)
  {
    hide Linked;
  }

  lemma AllLinkedMore(file: seq<byte>, hd: Header, sector: nat, rs: seq<Run>, r: Run)
    requires sector > 0 && AllLinked(file, hd, sector, rs) && Linked(file, hd, sector, r.chunks)
    ensures AllLinked(file, hd, sector, rs + [r])
  {
    hide Linked;
  }

  /** Only the last chunk of an accepted image can be cut short: every other one is followed
      by a header. */
  lemma {:induction false} OnlyLastCut(file: seq<byte>, hd: Header, sector: nat, cs: seq<Chunk>)
    requires sector > 0 && Chunks(file, hd, sector, |cs|) == Some(cs)
    ensures Complete(file, cs) <==> cs == [] || Whole(file, Last(cs))
  {
    hide ChunkAt;
    if |cs| > 0 {
      var init := Init(cs);
      SomePrefix(file, hd, sector, |cs| - 1, |cs|);
      OnlyLastCut(file, hd, sector, init);
      ChunkInFile(file, hd, sector, Position(hd, init));
      CompleteMore(file, init, Last(cs));
      assert cs == init + [Last(cs)];
    }
  }

  lemma ChunkInFile(file: seq<byte>, hd: Header, sector: nat, pos: nat)
    requires sector > 0 && ChunkAt(file, hd, sector, pos).Some?
    ensures pos <= |file|
  {
  }

  /** The raw chunks of an image are those of its runs. */
  lemma {:induction false} CompleteRuns(file: seq<byte>, cs: seq<Chunk>)
    ensures Complete(file, cs) <==> AllComplete(file, Runs(cs))
  {
    if cs == [] {
      assert Complete(file, cs) && AllComplete(file, []);
    } else {
      hide Whole, AllComplete, Complete;
      var c, rs := Last(cs), Runs(Init(cs));
      CompleteRuns(file, Init(cs));
      CompleteMore(file, Init(cs), c);
      assert cs == Init(cs) + [c];
      if !c.raw {
        NotRawWhole(file, c);
      } else if EndsRaw(Init(cs)) {
        var r := Last(rs);
        CompleteMore(file, r.chunks, c);
        LastRunComplete(file, rs, r.(chunks := r.chunks + [c]));
        LastRunComplete(file, rs, r);
        assert Init(rs) + [r] == rs;
      } else {
        CompleteMore(file, [], c);
        assert [] + [c] == [c];
        NewRunComplete(file, rs, Run(|cs| - 1, Covered(Init(cs)), [c]));
      }
    }
  }

  lemma NotRawWhole(file: seq<byte>, c: Chunk)
    requires !c.raw
    ensures Whole(file, c)
  {
  }

  lemma CompleteMore(file: seq<byte>, cs: seq<Chunk>, c: Chunk)
    ensures Complete(file, cs + [c]) <==> Complete(file, cs) && Whole(file, c)
  {
    hide Whole;
    if Complete(file, cs + [c]) {
      assert forall i | 0 <= i < |cs| :: (cs + [c])[i] == cs[i];
      assert (cs + [c])[|cs|] == c;
    }
  }

  ghost predicate AllComplete(file: seq<byte>, rs: seq<Run>) {
    forall k | 0 <= k < |rs| :: Complete(file, rs[k].chunks)
  }

  lemma LastRunComplete(file: seq<byte>, rs: seq<Run>, r: Run)
    requires rs != []
    ensures AllComplete(file, Init(rs) + [r]) <==> AllComplete(file, Init(rs)) && Complete(file, r.chunks)
  {
    hide Complete;
    NewRunComplete(file, Init(rs), r);
  }

  lemma NewRunComplete(file: seq<byte>, rs: seq<Run>, r: Run)
    ensures AllComplete(file, rs + [r]) <==> AllComplete(file, rs) && Complete(file, r.chunks)
  {
    hide Complete;
    if AllComplete(file, rs + [r]) {
      assert forall k | 0 <= k < |rs| :: (rs + [r])[k] == rs[k];
      assert (rs + [r])[|rs|] == r;
    }
  }
}
