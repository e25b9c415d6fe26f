/** The transfer loop of handleProgram in external/fh_loader/fh_loader.c: a file or
    a group of a sparse image goes out in packets of whole sectors. */
module Program {
  import opened Bytes
  import opened SparseRead
  import opened Wrappers

  /** The bytes of k sectors, and the sectors that n bytes need. */
  function Size(k: nat, s: nat): nat { k * s }

  function CeilDiv(n: nat, s: nat): nat
    requires s > 0
  {
    if n % s == 0 then n / s else n / s + 1
  }

  lemma SizeOrder(j: nat, k: nat, s: nat)
    requires s > 0
    ensures j <= k <==> Size(j, s) <= Size(k, s)
    ensures Size(j + k, s) == Size(j, s) + Size(k, s)
    ensures Size(0, s) == 0 && Size(1, s) == s
  {
  }

  lemma CeilDivBounds(n: nat, s: nat)
    requires s > 0
    ensures n <= Size(CeilDiv(n, s), s) < n + s
  {
  }

  /** The least number of sectors that hold n bytes. */
  lemma CeilDivLeast(n: nat, s: nat, k: nat)
    requires s > 0
    ensures CeilDiv(n, s) <= k <==> n <= Size(k, s)
  {
    hide CeilDiv, Size;
    CeilDivBounds(n, s);
    var c := CeilDiv(n, s);
    SizeOrder(c, k, s);
    if k < c {
      SizeOrder(k, c - 1, s);
      SizeOrder(c - 1, 1, s);
    }
  }

  /** The data, zero-padded to whole sectors. */
  function Sectored(data: seq<byte>, s: nat): (r: seq<byte>)
    requires s > 0
    ensures |r| == Size(CeilDiv(|data|, s), s)
  {
    CeilDivBounds(|data|, s);
    data + Zeros(Size(CeilDiv(|data|, s), s) - |data|)
  }

  /** The sectors sent of the data of one read. */
  function SectorsSent(n: nat, s: nat, left: nat): (k: nat)
    requires s > 0
    ensures k <= left && k <= CeilDiv(n, s)
    ensures n > 0 && left > 0 ==> k > 0
  {
    if CeilDiv(n, s) > left then left else CeilDiv(n, s)
  }

  function Packet(data: seq<byte>, s: nat, left: nat): (r: seq<byte>)
    requires s > 0
    ensures |r| == Size(SectorsSent(|data|, s, left), s)
  {
    SizeOrder(SectorsSent(|data|, s, left), CeilDiv(|data|, s), s);
    Sectored(data, s)[..Size(SectorsSent(|data|, s, left), s)]
  }

  /** The packets of the loop, for a source, a payload limit p, sectors of s bytes and
      left sectors to send. */
  function Transfer(src: seq<byte>, p: nat, s: nat, left: nat): Option<seq<seq<byte>>>
    requires p > 0 && s > 0
    decreases left
  {
    if left == 0 then Some([])
    else
      var data := Fread(src, 0, p);
      if data == [] then None
      else
        match Transfer(src[|data|..], p, s, left - SectorsSent(|data|, s, left))
        case None => None
        case Some(packets) => Some([Packet(data, s, left)] + packets)
  }

  // ---------- Payloads of whole sectors ----------

  lemma CeilDivSub(n: nat, s: nat, q: nat)
    requires s > 0 && Size(q, s) <= n
    ensures q <= CeilDiv(n, s) && CeilDiv(n - Size(q, s), s) == CeilDiv(n, s) - q
  {
    hide CeilDiv, Size;
    var c, d := CeilDiv(n, s), CeilDiv(n - Size(q, s), s);
    CeilDivLeast(n, s, c);
    SizeOrder(q, c, s);
    CeilDivLeast(n - Size(q, s), s, d);
    SizeOrder(q, d, s);
    CeilDivLeast(n, s, q + d);
    SizeOrder(q, c - q, s);
    CeilDivLeast(n - Size(q, s), s, c - q);
  }

  lemma SectoredSplit(src: seq<byte>, s: nat, q: nat)
    requires s > 0 && Size(q, s) <= |src|
    ensures Sectored(src, s) == src[..Size(q, s)] + Sectored(src[Size(q, s)..], s)
  {
    hide CeilDiv, Size;
    CeilDivSub(|src|, s, q);
    SizeOrder(q, CeilDiv(|src|, s) - q, s);
  }

  lemma ConcatFront<T>(x: seq<T>, rest: seq<seq<T>>)
    ensures Concat([x] + rest) == x + Concat(rest)
  {
    ConcatAppend([x], rest);
    assert Concat([x]) == x by { assert [x][..0] == []; }
  }

  /** What the loop sends of a source is right: the first left sectors of the source,
      padded to a sector, in packets within the limit; and it fails exactly when the
      source is too short. */
  ghost predicate Right(src: seq<byte>, p: nat, s: nat, left: nat, r: Option<seq<seq<byte>>>)
    requires s > 0
  {
    if left <= CeilDiv(|src|, s) then
      r.Some? && Size(left, s) <= |Sectored(src, s)| && Concat(r.value) == Sectored(src, s)[..Size(left, s)]
      && forall i | 0 <= i < |r.value| :: |r.value[i]| <= p
    else r.None?
  }

  /** The whole source fits into one read. */
  lemma TransferLast(src: seq<byte>, p: nat, s: nat, q: nat, left: nat)
    requires s > 0 && p > 0 && p == Size(q, s) && |src| <= p
    ensures Right(src, p, s, left, Transfer(src, p, s, left))
  {
    hide CeilDiv, Size, Sectored;
    var c := CeilDiv(|src|, s);
    CeilDivLeast(|src|, s, q);
    SizeOrder(c, q, s);
    SizeOrder(left, c, s);
    if src == [] {
      CeilDivLeast(0, s, 0);
      SizeOrder(0, 0, s);
    } else if left > 0 {
      assert Fread(src, 0, p) == src;
      assert src[|src|..] == [];
      if left <= c {
        ConcatFront(Packet(src, s, left), []);
      }
    }
  }

  /** A read of a full payload: its packet is the payload itself, cut to what is wanted. */
  lemma FullRead(src: seq<byte>, p: nat, s: nat, q: nat, left: nat)
    requires s > 0 && p == Size(q, s) && p < |src|
    ensures Fread(src, 0, p) == src[..p] && CeilDiv(p, s) == q && Sectored(src[..p], s) == src[..p]
    ensures SectorsSent(p, s, left) == (if q > left then left else q)
  {
    hide CeilDiv, Size;
    CeilDivSub(p, s, q);
    CeilDivLeast(0, s, 0);
    SizeOrder(0, 0, s);
    assert |src[..p]| == p;
  }

  /** Main theorem on the loop: with a payload of whole sectors the transfer is right. */
  lemma {:induction false} TransferIsRight(src: seq<byte>, p: nat, s: nat, q: nat, left: nat)
    requires s > 0 && p > 0 && p == Size(q, s)
    ensures Right(src, p, s, left, Transfer(src, p, s, left))
    decreases left
  {
    hide CeilDiv, Size, Sectored, Fread;
    if |src| <= p || left == 0 {
      if left == 0 { RightNone(src, p, s); } else { TransferLast(src, p, s, q, left); }
    } else {
      FullRead(src, p, s, q, left);
      SizeOrder(0, q, s);
      SizeOrder(left, q, s);
      CeilDivSub(|src|, s, q);
      SectoredSplit(src, s, q);
      var n := SectorsSent(p, s, left);
      TransferIsRight(src[p..], p, s, q, left - n);
      if left <= q {
        ConcatFront(src[..p][..Size(left, s)], []);
      } else {
        SizeOrder(q, left - q, s);
        SizeOrder(left, CeilDiv(|src|, s), s);
        var r := Transfer(src[p..], p, s, left - q);
        assert Packet(src[..p], s, left) == src[..p];
        if r.Some? {
          ConcatFront(src[..p], r.value);
          assert Sectored(src, s)[..Size(left, s)] == src[..p] + Sectored(src[p..], s)[..Size(left - q, s)];
        }
      }
    }
  }

  lemma RightNone(src: seq<byte>, p: nat, s: nat)
    requires s > 0 && p > 0
    ensures Right(src, p, s, 0, Some([]))
  {
  }

  // ---------- Other payloads ----------

  /** The bytes sent are the right ones. */
  ghost predicate SentRight(src: seq<byte>, p: nat, s: nat, left: nat)
    requires p > 0 && s > 0 && left <= CeilDiv(|src|, s)
  {
    var r := Transfer(src, p, s, left);
    r.Some? && Size(left, s) <= |Sectored(src, s)| && Concat(r.value) == Sectored(src, s)[..Size(left, s)]
  }

  /** One read is enough, whatever the payload. */
  lemma OneReadIsRight(src: seq<byte>, p: nat, s: nat, left: nat)
    requires p > 0 && s > 0 && left <= CeilDiv(|src|, s)
    requires |src| <= p || Size(left, s) <= p
    ensures SentRight(src, p, s, left)
  {
    hide CeilDiv, Size;
    SizeOrder(left, CeilDiv(|src|, s), s);
    if left > 0 {
      var data := Fread(src, 0, p);
      CeilDivLeast(|src|, s, 0);
      SizeOrder(0, 0, s);
      assert src != [];
      if |src| <= p {
        assert data == src;
      } else {
        assert data == src[..p];
        SizeOrder(left, CeilDiv(p, s), s);
        CeilDivLeast(p, s, CeilDiv(p, s));
      }
      assert SectorsSent(|data|, s, left) == left;
      assert Transfer(src[|data|..], p, s, 0) == Some([]);
      assert Packet(data, s, left) == Sectored(src, s)[..Size(left, s)];
      ConcatFront(Packet(data, s, left), []);
    } else {
      SizeOrder(0, 0, s);
    }
  }

  /** More than one read of a payload that is not of whole sectors: the padding after
      the first read displaces byte p of the source. */
  lemma PaddingDisplaces(src: seq<byte>, p: nat, s: nat, left: nat)
    requires p > 0 && s > 0 && left <= CeilDiv(|src|, s)
    requires p % s != 0 && p < |src| && p < Size(left, s) && src[p] != 0
    ensures !SentRight(src, p, s, left)
  {
    assert CeilDiv(p, s) == p / s + 1 && p < Size(CeilDiv(p, s), s) by { CeilDivPast(p, s); }
    hide CeilDiv, Size;
    var data := Fread(src, 0, p);
    assert data == src[..p];
    SizeOrder(0, left, s);
    var packet := Packet(data, s, left);
    assert |packet| > p && packet[p] == 0;
    var r := Transfer(src[p..], p, s, left - SectorsSent(p, s, left));
    if r.Some? {
      ConcatFront(packet, r.value);
      assert Concat([packet] + r.value)[p] == 0;
      assert Sectored(src, s)[p] == src[p];
    }
  }

  lemma CeilDivPast(p: nat, s: nat)
    requires s > 0 && p % s != 0
    ensures CeilDiv(p, s) == p / s + 1 && p < Size(CeilDiv(p, s), s)
  {
  }

  /** Exactly which payload sizes are safe for sources of n bytes. */
  lemma SafePayloads(n: nat, p: nat, s: nat, left: nat)
    requires p > 0 && s > 0 && left <= CeilDiv(n, s)
    ensures (forall src: seq<byte> | |src| == n :: SentRight(src, p, s, left))
            <==> p % s == 0 || n <= p || Size(left, s) <= p
  {
    hide CeilDiv, SentRight;
    if p % s == 0 {
      var q := p / s;
      assert p == Size(q, s);
      forall src: seq<byte> | |src| == n ensures SentRight(src, p, s, left) { WholePayload(src, p, s, q, left); }
    } else if n <= p || Size(left, s) <= p {
      forall src: seq<byte> | |src| == n ensures SentRight(src, p, s, left) { OneReadIsRight(src, p, s, left); }
    } else {
      var src: seq<byte> := seq(n, _ => 1);
      PaddingDisplaces(src, p, s, left);
    }
  }

  lemma WholePayload(src: seq<byte>, p: nat, s: nat, q: nat, left: nat)
    requires s > 0 && p > 0 && p == Size(q, s) && left <= CeilDiv(|src|, s)
    ensures SentRight(src, p, s, left)
  {
    hide CeilDiv, Size, Sectored, Transfer;
    TransferIsRight(src, p, s, q, left);
  }

  // ---------- handleProgram ----------

  datatype Outcome = Failed | Sent(announced: nat, packets: seq<seq<byte>>)

  /** The sectors announced in the tag: those of the file, or fewer if the partition has
      fewer; a partition size of 0 stands for that of the file. */
  function Announced(fileSize: nat, s: nat, numPartitionSectors: nat): nat
    requires s > 0
  {
    var n := CeilDiv(fileSize, s);
    if numPartitionSectors != 0 && n > numPartitionSectors then numPartitionSectors else n
  }

  lemma PadAmount(n: nat, s: nat)
    requires s > 0
    ensures n % s < s
    ensures n % s == 0 ==> CeilDiv(n, s) == n / s && Size(CeilDiv(n, s), s) == n
    ensures n % s != 0 ==> CeilDiv(n, s) == n / s + 1 && Size(CeilDiv(n, s), s) == n + (s - n % s)
  {
  }

  /** The data of one read in the transmit buffer, padded to a sector. */
  method PadBuffer(data: seq<byte>, s: nat, tx: array<byte>) returns (sectors: nat)
    requires s > 0 && Size(CeilDiv(|data|, s), s) <= tx.Length
    modifies tx
    ensures sectors == CeilDiv(|data|, s) && Size(sectors, s) <= tx.Length
    ensures tx[..Size(sectors, s)] == Sectored(data, s)
  {
    hide CeilDiv, Size;
    PadAmount(|data|, s);
    CopyInto(tx, 0, data);
    sectors := |data| / s;
    var rest := |data| % s;
    if rest != 0 {
      sectors := sectors + 1;
      CopyInto(tx, |data|, Zeros(s - rest));
    }
    assert tx[..Size(sectors, s)] == Sectored(data, s);
  }

  /** Pads the data of one read in the transmit buffer and cuts it to the sectors left. */
  method MakePacket(data: seq<byte>, s: nat, left: nat, tx: array<byte>) returns (packet: seq<byte>, sectors: nat)
    requires s > 0 && Size(CeilDiv(|data|, s), s) <= tx.Length
    modifies tx
    ensures packet == Packet(data, s, left) && sectors == SectorsSent(|data|, s, left)
  {
    hide Size, CeilDiv, Sectored;
    sectors := PadBuffer(data, s, tx);
    ghost var all := tx[..Size(sectors, s)];
    if sectors > left {
      SizeOrder(left, sectors, s);
      sectors := left;
    }
    packet := tx[..Size(sectors, s)];
    assert packet == all[..Size(sectors, s)];
  }

  /** What the loop still has to do, against what it does in all. */
  ghost predicate Progress(packets: seq<seq<byte>>, rest: Option<seq<seq<byte>>>, all: Option<seq<seq<byte>>>) {
    if rest.None? then all.None? else all == Some(packets + rest.value)
  }

  // ---------- Sources that promise more than they have ----------

  /** The packets of the loop when only src is left of the promised bytes. A read of bytes
      that are not there ends the program. */
  function TransferOf(src: seq<byte>, promised: nat, p: nat, s: nat, left: nat): Option<seq<seq<byte>>>
    requires p > 0 && s > 0
    decreases left
  {
    if left == 0 then Some([])
    else
      var want := Least(p, promised);
      if want == 0 || |src| < want then None
      else
        match TransferOf(src[want..], promised - want, p, s, left - SectorsSent(want, s, left))
        case None => None
        case Some(packets) => Some([Packet(src[..want], s, left)] + packets)
  }

  /** A source that has what it promises. */
  lemma {:induction false} TransferOfWhole(src: seq<byte>, p: nat, s: nat, left: nat)
    requires p > 0 && s > 0
    ensures TransferOf(src, |src|, p, s, left) == Transfer(src, p, s, left)
    decreases left
  {
    hide SectorsSent, Packet;
    if left > 0 && src != [] {
      var want := Least(p, |src|);
      assert Fread(src, 0, p) == src[..want];
      TransferOfWhole(src[want..], p, s, left - SectorsSent(want, s, left));
    }
  }

  /** All promised sectors are wanted: the transfer succeeds only if they are all there. */
  lemma {:induction false} TransferOfShort(src: seq<byte>, p: nat, s: nat, q: nat, left: nat)
    requires s > 0 && p > 0 && p == Size(q, s) && |src| < Size(left, s)
    ensures TransferOf(src, Size(left, s), p, s, left).None?
    decreases left
  {
    hide CeilDiv, Size, Packet;
    SizeOrder(0, left, s);
    if left > 0 {
      var k := if q < left then q else left;
      SizeOrder(q, left, s);
      SizeOrder(left, q, s);
      assert Least(p, Size(left, s)) == Size(k, s);
      CeilDivOfSize(k, s);
      SizeOrder(k, left - k, s);
      if |src| >= Size(k, s) && Size(k, s) > 0 {
        TransferOfShort(src[Size(k, s)..], p, s, q, left - k);
      }
    }
  }

  lemma CeilDivOfSize(k: nat, s: nat)
    requires s > 0
    ensures CeilDiv(Size(k, s), s) == k
  {
    hide CeilDiv, Size;
    CeilDivLeast(Size(k, s), s, k);
    var c := CeilDiv(Size(k, s), s);
    CeilDivLeast(Size(k, s), s, c);
    SizeOrder(c, k, s);
    SizeOrder(k, c, s);
  }

  lemma ProgressStep(packets: seq<seq<byte>>, src: seq<byte>, promised: nat, p: nat, s: nat, left: nat,
                     all: Option<seq<seq<byte>>>)
    requires p > 0 && s > 0 && left > 0 && Progress(packets, TransferOf(src, promised, p, s, left), all)
    ensures var want := Least(p, promised);
            if want == 0 || |src| < want then all.None?
            else Progress(packets + [Packet(src[..want], s, left)],
                          TransferOf(src[want..], promised - want, p, s, left - SectorsSent(want, s, left)), all)
  {
    hide Packet, SectorsSent;
    var want := Least(p, promised);
    if want > 0 && |src| >= want {
      var next := TransferOf(src[want..], promised - want, p, s, left - SectorsSent(want, s, left));
      if next.Some? {
        var packet := Packet(src[..want], s, left);
        assert packets + ([packet] + next.value) == packets + [packet] + next.value;
      }
    }
  }

  /** What is still to be read of a plain file or of a sparse group, and the bytes promised. */
  ghost function Remaining(file: seq<byte>, pos: nat, reader: Reader?): seq<byte>
    reads reader
  {
    if reader != null then BytesAt(reader.file, reader.Rest()) else if pos <= |file| then file[pos..] else []
  }

  ghost function Promised(file: seq<byte>, pos: nat, reader: Reader?): nat
    reads reader
  {
    if reader != null then reader.bytesRemaining else |Remaining(file, pos, reader)|
  }

  /** sparse_read or fread of a payload; ok is false when sparse_read ends the program. */
  method ReadSource(file: seq<byte>, pos: nat, reader: Reader?, p: nat) returns (ok: bool, data: seq<byte>, pos': nat)
    modifies reader
    ensures var want := Least(p, old(Promised(file, pos, reader)));
            && (ok <==> want <= |old(Remaining(file, pos, reader))|)
            && (ok ==> data == old(Remaining(file, pos, reader))[..want])
            && (ok ==> Remaining(file, pos', reader) == old(Remaining(file, pos, reader))[want..])
            && (ok ==> Promised(file, pos', reader) == old(Promised(file, pos, reader)) - want)
  {
    hide Places;
    pos' := pos;
    if reader != null {
      ok, data := reader.SparseRead(p);
    } else {
      data := Fread(file, pos, p);
      pos' := pos + |data|;
      ok := true;
    }
  }

  /** handleProgram from the size of the file on. Failed stands for ExitAndShowLog. */
  method HandleProgram(file: seq<byte>, offset: nat, reader: Reader?,
                       fileSize: nat, s: nat, numPartitionSectors: nat, p: nat, tx: array<byte>)
    returns (r: Outcome)
    requires s > 0 && p > 0 && Size(CeilDiv(p, s), s) <= tx.Length
    modifies tx, reader
    ensures var n := Announced(fileSize, s, numPartitionSectors);
            var t := TransferOf(old(Remaining(file, offset, reader)), old(Promised(file, offset, reader)), p, s, n);
            if fileSize == 0 || t.None? then r.Failed? else r == Sent(n, t.value)
  {
    hide TransferOf, Announced, Packet, SectorsSent, Remaining, Promised, CeilDiv, Size;
    if fileSize == 0 {
      return Failed;
    }
    var n := Announced(fileSize, s, numPartitionSectors);
    ghost var all := TransferOf(Remaining(file, offset, reader), Promised(file, offset, reader), p, s, n);
    ProgressStarts(all);
    var left, pos, packets := n, offset, [];
    while left > 0
      invariant 0 <= pos
      invariant Progress(packets, TransferOf(Remaining(file, pos, reader), Promised(file, pos, reader), p, s, left), all)
    {
      ProgressStep(packets, Remaining(file, pos, reader), Promised(file, pos, reader), p, s, left, all);
      var ok, data;
      ok, data, pos := ReadSource(file, pos, reader, p);
      if !ok || |data| == 0 {
        return Failed;
      }
      PaddedFits(|data|, p, s);
      var packet, sectors := MakePacket(data, s, left, tx);
      packets, left := packets + [packet], left - sectors;
    }
    ProgressEnds(packets, Remaining(file, pos, reader), Promised(file, pos, reader), p, s, all);
    return Sent(n, packets);
  }

  /** Fewer bytes take no more sectors. */
  lemma PaddedFits(n: nat, p: nat, s: nat)
    requires s > 0 && n <= p
    ensures Size(CeilDiv(n, s), s) <= Size(CeilDiv(p, s), s)
  {
    hide CeilDiv, Size;
    CeilDivBounds(p, s);
    CeilDivLeast(n, s, CeilDiv(p, s));
    SizeOrder(CeilDiv(n, s), CeilDiv(p, s), s);
  }

  lemma ProgressStarts(all: Option<seq<seq<byte>>>)
    ensures Progress([], all, all)
  {
    if all.Some? { assert [] + all.value == all.value; }
  }

  lemma ProgressEnds(packets: seq<seq<byte>>, src: seq<byte>, promised: nat, p: nat, s: nat, all: Option<seq<seq<byte>>>)
    requires p > 0 && s > 0 && Progress(packets, TransferOf(src, promised, p, s, 0), all)
    ensures all == Some(packets)
  {
    assert packets + [] == packets;
  }
}
