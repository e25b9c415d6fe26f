/** sparse_read and read_chunk_header of external/fh_loader/fh_loader.c: the raw
    data of a group, read in pieces of any size across the chunk headers that
    lie between. */
module SparseRead {
  import opened Bytes
  import opened Sparse
  import opened Wrappers

  /** Data and header of the next chunk that is not DONT_CARE. */
  datatype Found = Found(data: nat, size: nat)

  function HeaderAfter(file: seq<byte>, hd: Header, pos: nat): Option<Found>
    decreases |file| - pos
  {
    if |file| < pos + CHUNK_HEADER_LEN then None
    else if Le16At(file, pos) == 0xCAC3 then HeaderAfter(file, hd, pos + ChunkHeaderRoom(hd))
    else Some(Found(pos + ChunkHeaderRoom(hd), Le32At(file, pos + 4) * hd.blk))
  }

  /** read_chunk_header. The product is computed in an unsigned long, of 64 bits here. */
  method ReadChunkHeader(file: seq<byte>, hd: Header, pos: nat) returns (r: Option<Found>)
    ensures r == HeaderAfter(file, hd, pos)
  {
    if |file| < pos + CHUNK_HEADER_LEN {
      return None;
    }
    var at := pos;
    while Le16At(file, at) == 0xCAC3
      invariant at + CHUNK_HEADER_LEN <= |file|
      invariant HeaderAfter(file, hd, at) == HeaderAfter(file, hd, pos)
      decreases |file| - at
    {
      at := at + ChunkHeaderRoom(hd);
      if |file| < at + CHUNK_HEADER_LEN {
        return None;
      }
    }
    return Some(Found(at + ChunkHeaderRoom(hd), Le32At(file, at + 4) * hd.blk));
  }

  // ---------- The places of the file that are read ----------

  /** n places from at on. */
  function Span(at: nat, n: nat): (ps: seq<nat>)
    ensures |ps| == n && forall i | 0 <= i < n :: ps[i] == at + i
  {
    seq(n, i => at + i)
  }

  lemma SpanSplit(at: nat, k: nat, n: nat)
    requires k <= n
    ensures Span(at, n) == Span(at, k) + Span(at + k, n - k)
  {
  }

  ghost predicate InFile(file: seq<byte>, ps: seq<nat>) {
    forall i | 0 <= i < |ps| :: ps[i] < |file|
  }

  /** How many of n bytes at a place the file has. */
  function Available(file: seq<byte>, at: nat, n: nat): (k: nat)
    ensures k <= n && (k > 0 ==> at + k <= |file|) && (k < n ==> at + k >= |file|)
  {
    if at + n <= |file| then n else if at <= |file| then |file| - at else 0
  }

  function Least(a: nat, b: nat): nat { if a < b then a else b }

  /** Where sparse_read looks for left bytes, with chunk bytes left of the chunk at pos; up
      to the point where a header or a byte is missing. */
  function Places(file: seq<byte>, hd: Header, pos: nat, chunk: nat, left: nat): (ps: seq<nat>)
    ensures |ps| <= left && InFile(file, ps)
    decreases left, if pos < |file| then |file| - pos else 0
  {
    if left == 0 then []
    else if chunk == 0 then
      HeaderMoves(file, hd, pos);
      match HeaderAfter(file, hd, pos)
      case None => []
      case Some(f) => Places(file, hd, f.data, f.size, left)
    else
      var take := Least(chunk, left);
      if Available(file, pos, take) < take then Span(pos, Available(file, pos, take))
      else Span(pos, take) + Places(file, hd, pos + take, chunk - take, left - take)
  }

  lemma {:induction false} HeaderMoves(file: seq<byte>, hd: Header, pos: nat)
    ensures match HeaderAfter(file, hd, pos) case None => true case Some(f) => pos < f.data && pos < |file|
    decreases |file| - pos
  {
    hide Le32At, Le16At;
    if pos + CHUNK_HEADER_LEN <= |file| && Le16At(file, pos) == 0xCAC3 {
      HeaderMoves(file, hd, pos + ChunkHeaderRoom(hd));
    }
  }

  /** The bytes at some places. */
  function BytesAt(file: seq<byte>, ps: seq<nat>): (s: seq<byte>)
    requires InFile(file, ps)
    ensures |s| == |ps|
  {
    seq(|ps|, i requires 0 <= i < |ps| => file[ps[i]])
  }

  lemma BytesAtAppend(file: seq<byte>, a: seq<nat>, b: seq<nat>)
    requires InFile(file, a + b)
    ensures InFile(file, a) && InFile(file, b) && BytesAt(file, a + b) == BytesAt(file, a) + BytesAt(file, b)
  {
    assert forall i | 0 <= i < |a| :: a[i] == (a + b)[i];
    assert forall i | 0 <= i < |b| :: b[i] == (a + b)[|a| + i];
  }

  lemma BytesAtSpan(file: seq<byte>, at: nat, n: nat)
    requires n > 0 ==> at + n <= |file|
    ensures InFile(file, Span(at, n)) && BytesAt(file, Span(at, n)) == Fread(file, at, n)
  {
  }

  /** Part of a chunk is read. */
  lemma PlacesSplit(file: seq<byte>, hd: Header, pos: nat, chunk: nat, left: nat, k: nat)
    requires k <= chunk && k <= left && chunk > 0 && left > 0
    ensures Available(file, pos, k) == k ==>
              Places(file, hd, pos, chunk, left) == Span(pos, k) + Places(file, hd, pos + k, chunk - k, left - k)
    ensures Available(file, pos, k) < k ==> |Places(file, hd, pos, chunk, left)| < k
  {
    hide HeaderAfter;
    var take := Least(chunk, left);
    if Available(file, pos, k) == k {
      if k < take {
        SpanSplit(pos, k, Available(file, pos, take));
        SpanSplit(pos, k, take);
        assert Least(chunk - k, left - k) == take - k;
      }
    }
  }

  /** struct sparse_read_info_t and the position of the file. */
  class Reader {
    const file: seq<byte>
    const hd: Header
    var pos: nat
    var chunkRemaining: nat
    var bytesRemaining: nat

    /** The places still to be read. */
    ghost function Rest(): seq<nat>
      reads this
    {
      Places(file, hd, pos, chunkRemaining, bytesRemaining)
    }

    constructor (file: seq<byte>, hd: Header, first: Found, bytes: nat)
      ensures this.file == file && this.hd == hd
      ensures pos == first.data && chunkRemaining == first.size && bytesRemaining == bytes
    {
      this.file := file;
      this.hd := hd;
      pos, chunkRemaining, bytesRemaining := first.data, first.size, bytes;
    }

    /** One turn of the loop of sparse_read: past the header if the chunk is used up,
        then as much of the chunk as is wanted. */
    method ReadPiece(length: nat) returns (ok: bool, ghost places: seq<nat>, piece: seq<byte>)
      requires 0 < length <= bytesRemaining
      modifies this
      ensures !ok ==> |old(Rest())| < length
      ensures ok ==> old(Rest()) == places + Rest() && |places| <= length
      ensures ok ==> InFile(file, places) && piece == BytesAt(file, places)
      ensures ok ==> bytesRemaining == old(bytesRemaining) - |places|
      ensures ok ==> |places| > 0 || (pos > old(pos) && old(pos) < |file|)
    {
      hide Places, HeaderAfter, BytesAt, Fread, Available;
      if chunkRemaining == 0 {
        HeaderMoves(file, hd, pos);
        PlacesHeader(file, hd, pos, bytesRemaining);
        var r := ReadChunkHeader(file, hd, pos);
        if r.None? {
          return false, [], [];
        }
        pos, chunkRemaining := r.value.data, r.value.size;
      }
      var chunk := if chunkRemaining > length then length else chunkRemaining;
      if chunk > 0 { PlacesSplit(file, hd, pos, chunkRemaining, bytesRemaining, chunk); }
      piece := Fread(file, pos, chunk);
      FreadAvailable(file, pos, chunk);
      if |piece| != chunk {
        return false, [], [];
      }
      places := Span(pos, chunk);
      BytesAtSpan(file, pos, chunk);
      pos := pos + chunk;
      chunkRemaining := chunkRemaining - chunk;
      bytesRemaining := bytesRemaining - chunk;
      ok := true;
    }

    /** sparse_read. It fails exactly when the file ends before the bytes asked for; the
        loop ends even on raw chunks without data. */
    method SparseRead(numBytes: nat) returns (ok: bool, data: seq<byte>)
      modifies this
      ensures var want := Least(numBytes, old(bytesRemaining));
              && (ok <==> want <= |old(Rest())|)
              && (ok ==> InFile(file, old(Rest())[..want]) && data == BytesAt(file, old(Rest())[..want])
                         && Rest() == old(Rest())[want..] && bytesRemaining == old(bytesRemaining) - want)
    {
      hide Places, BytesAt;
      ghost var all := Rest();
      var length := if numBytes < bytesRemaining then numBytes else bytesRemaining;
      ghost var want := length;
      ghost var done: seq<nat> := [];
      data := [];
      assert all == done + Rest();
      while length > 0
        invariant 0 <= length == want - |done| && bytesRemaining == old(bytesRemaining) - |done|
        invariant length <= bytesRemaining
        invariant all == done + Rest() && InFile(file, done) && data == BytesAt(file, done)
        decreases length, if pos < |file| then |file| - pos else 0
      {
        var got, places, piece := ReadPiece(length);
        if !got {
          return false, [];
        }
        assert done + (places + Rest()) == done + places + Rest();
        assert InFile(file, done + places);
        BytesAtAppend(file, done, places);
        data := data + piece;
        done := done + places;
        length := length - |piece|;
      }
      assert all[..want] == done && all[want..] == Rest();
      return true, data;
    }
  }

  lemma PlacesHeader(file: seq<byte>, hd: Header, pos: nat, left: nat)
    requires left > 0
    ensures match HeaderAfter(file, hd, pos)
            case None => Places(file, hd, pos, 0, left) == []
            case Some(f) => Places(file, hd, pos, 0, left) == Places(file, hd, f.data, f.size, left)
  {
    hide HeaderAfter;
  }

  lemma FreadAvailable(file: seq<byte>, at: nat, n: nat)
    ensures |Fread(file, at, n)| == Available(file, at, n)
  {
  }
}
