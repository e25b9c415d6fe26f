/** The sending side of validated image programming as the program runs it:
    global counters, one transmit buffer shared by packets and tables, and a
    send function that calls itself to slip a table in. */
module VipHost {
  import opened Bytes
  import opened DigestTables
  import opened Vip
  import Fips180
  import Sha256

  class Host {
    const p: Plan
    /** The file given with --chaineddigests. */
    const chained: seq<byte>
    var usingValidation: bool
    var currentDigestLocation: int
    var digestFileOffset: nat
    var numDigestsFound: int
    var tx: seq<byte>
    var txBackup: seq<byte>
    /** The other end of the wire, and whether the program has exited. */
    var target: Target
    var halted: bool

    ghost predicate Valid()
      reads this
    {
      p.Valid() && p.size <= |tx|
    }

    ghost function State(): Session
      reads this
    {
      Session(currentDigestLocation, digestFileOffset, target, halted)
    }

    constructor (p: Plan, chained: seq<byte>, buffer: seq<byte>)
      requires p.Valid() && p.size <= |buffer|
      ensures Valid() && this.p == p && this.chained == chained && tx == buffer
      ensures State() == Session(p.Slots() - 54, 0, Unauthenticated, false)
    {
      this.p := p;
      this.chained := chained;
      usingValidation := false;
      currentDigestLocation := p.Slots() - 54;
      digestFileOffset := 0;
      numDigestsFound := 0;
      tx := buffer;
      txBackup := buffer;
      target := Unauthenticated;
      halted := false;
    }

    /** WritePort, as far as the counters go. */
    method WritePort(length: nat)
      requires Valid() && length <= |tx|
      modifies this`target, this`currentDigestLocation
      ensures target == Receive(p.h, p.Slots(), old(target), tx[..length])
      ensures currentDigestLocation == old(currentDigestLocation) + 1
    {
      target := Receive(p.h, p.Slots(), target, tx[..length]);
      currentDigestLocation := currentDigestLocation + 1;
    }

    /** sendTransmitBufferBytes and sendTransmitBuffer. With validation off the bytes go
        out as they are; with validation on this is one step of the session. */
    method SendTransmitBufferBytes(length: nat)
      requires Valid() && !halted && length <= |tx|
      modifies this
      ensures Valid() && tx == old(tx)
      ensures usingValidation == old(usingValidation) && numDigestsFound == old(numDigestsFound)
      ensures !old(usingValidation) ==>
                txBackup == old(txBackup) &&
                State() == Session(old(currentDigestLocation) + 1, old(digestFileOffset),
                                   Receive(p.h, p.Slots(), old(target), old(tx[..length])), false)
      ensures old(usingValidation) ==>
                State() == Send(p, numDigestsFound, chained, old(State()), old(tx[..length]))
      decreases usingValidation, 2
    {
      hide Receive, Tested;
      TestIfWeNeedToSendDigestTable();
      if halted {
        return;
      }
      WritePort(length);
    }

    /** The table goes out through the transmit buffer, with validation switched off so
        that the send does not test again; then the buffer is put back. */
    method SendTable(table: seq<byte>)
      requires Valid() && !halted && usingValidation && |table| <= p.size
      modifies this
      ensures Valid() && tx == old(tx)
      ensures usingValidation && numDigestsFound == old(numDigestsFound)
      ensures State() == Session(old(currentDigestLocation) + 1, old(digestFileOffset),
                                 Receive(p.h, p.Slots(), old(target), table), false)
      decreases usingValidation, 0
    {
      hide Receive, Send;
      txBackup := tx;
      tx := table + tx[|table|..];
      assert tx[..|table|] == table;
      usingValidation := false;
      SendTransmitBufferBytes(|table|);
      usingValidation := true;
      tx := txBackup;
    }

    method TestIfWeNeedToSendDigestTable()
      requires Valid() && !halted
      modifies this
      ensures Valid() && tx == old(tx)
      ensures usingValidation == old(usingValidation) && numDigestsFound == old(numDigestsFound)
      ensures !old(usingValidation) ==> State() == old(State()) && txBackup == old(txBackup)
      ensures old(usingValidation) ==> State() == Tested(p, numDigestsFound, chained, old(State()))
      decreases usingValidation, 1
    {
      hide Receive, TableDue, Fread;
      if !usingValidation || numDigestsFound <= 53 || !TableDue(currentDigestLocation, p.Slots()) || |chained| == 0 {
        return;
      }
      var table := Fread(chained, digestFileOffset, p.size);
      if |table| == 0 {
        halted := true;
        return;
      }
      SendTable(table);
      if target.Rejected? {
        halted := true;
        return;
      }
      currentDigestLocation := 0;
      digestFileOffset := digestFileOffset + p.Slots() * 32;
    }

    /** SendSignedDigestTable: the first packet of all, not counted as one. */
    method SendSignedDigestTable(signed: seq<byte>, ghost signature: seq<byte>)
      requires Valid() && State() == Session(p.Slots() - 54, 0, Unauthenticated, false)
      requires signed == SignedFile(p) + signature && |signed| <= |tx|
      modifies this
      ensures Valid() && |tx| == old(|tx|) && usingValidation && numDigestsFound == DigestsFound(|signed|)
      ensures State() == Start(p, signature)
    {
      hide Send, SignedFile, LoadSigned;
      tx := signed + tx[|signed|..];
      assert tx[..|signed|] == signed;
      numDigestsFound := DigestsFound(|signed|);
      currentDigestLocation := p.Slots() - 54;
      usingValidation := false;
      SendTransmitBufferBytes(|signed|);
      usingValidation := true;
      if target.Rejected? {
        halted := true;
      }
      currentDigestLocation := currentDigestLocation - 1;
    }

    /** One packet of a run, unless the program has exited. */
    method SendPacket(packet: seq<byte>)
      requires Valid() && usingValidation && |packet| <= |tx|
      modifies this
      ensures Valid() && |tx| == old(|tx|) && usingValidation && numDigestsFound == old(numDigestsFound)
      ensures State() == Send(p, numDigestsFound, chained, old(State()), packet)
    {
      hide Tested, Receive;
      if halted {
        return;
      }
      tx := packet + tx[|packet|..];
      assert tx[..|packet|] == packet;
      SendTransmitBufferBytes(|packet|);
    }

    /** The packets of a run, one after the other. */
    method SendAll(run: VipRun)
      requires Valid() && run.Valid() && p == run.P() && chained == run.ChainedFile()
      requires forall i | 0 <= i < |run.packets| :: |run.packets[i]| <= |tx|
      requires usingValidation && numDigestsFound == run.Found() && State() == run.After(0)
      modifies this
      ensures State() == run.After(|run.packets|)
    {
      hide Send, Start, VipRun.P, VipRun.Valid, VipRun.Found, VipRun.ChainedFile;
      for k := 0 to |run.packets|
        invariant Valid() && |tx| == old(|tx|) && usingValidation && numDigestsFound == run.Found()
        invariant State() == run.After(k)
      {
        SendPacket(run.packets[k]);
      }
    }
  }

  // ---------- The whole procedure ----------

  const SHA: Hash := (m: seq<byte>) => Fips180.Sha256(m)

  /** The dry run: WritePort with CreateDigests set, once per packet. */
  method DryRun(packets: seq<seq<byte>>) returns (file: seq<byte>)
    ensures file == DigestList(SHA, packets)
  {
    hide Fips180.Sha256;
    file := [];
    for k := 0 to |packets|
      invariant file == DigestList(SHA, packets[..k])
    {
      var digest := Sha256.Digest([packets[k]]);
      assert Concat([packets[k]]) == packets[k];
      file := file + digest;
      assert packets[..k + 1][..k] == packets[..k];
    }
    assert packets[..|packets|] == packets;
  }

  /** Digest tables from the list of the dry run, then the real run. Everything sent is
      accepted when one table is enough; with chained tables, exactly when the run is
      not the broken one. */
  method Validate(run: VipRun, file: seq<byte>, buffer: seq<byte>, tx: array<byte>, backup: array<byte>)
    returns (accepted: bool)
    requires run.Valid() && file == DigestList(run.h, run.packets)
    requires 32 * (1 + run.P().Tables()) <= backup.Length
    requires tx != backup && run.size < tx.Length && 54 * 32 <= tx.Length
    requires run.size <= |buffer| && 40 + 54 * 32 + |run.signature| <= |buffer|
    requires forall i | 0 <= i < |run.packets| :: |run.packets[i]| <= |buffer|
    modifies tx, backup
    ensures accepted == run.Accepted()
    ensures |run.packets| <= 53 ==> accepted
    ensures run.Chaining() ==> accepted == !run.Broken()
    ensures run.Small() ==> (accepted ==> run.Coincidence())
    ensures run.Telling() ==> accepted == (|run.packets| <= 53 || (run.size >= 54 * 32 && !run.P().FillsExactly()))
  {
    hide DigestList, SignedFile, Start, Send, Plan.Tables, Plan.Chained, VipRun.Broken, VipRun.After, VipRun.Telling,
      VipRun.Coincidence, VipRun.Accepted, Plan.FillsExactly;
    var r := PrepareDigestTable(run.h, file, run.size, tx, backup);
    var host := new Host(run.P(), r.chained, buffer);
    SignedLength(run.P());
    host.SendSignedDigestTable(r.signed + run.signature, run.signature);
    AfterStart(run);
    host.SendAll(run);
    accepted := !host.halted && host.target.Checking?;
    AcceptedIs(run);
    run.Verdict();
  }

  lemma AcceptedIs(run: VipRun)
    requires run.Valid()
    ensures run.Accepted() <==> !run.After(|run.packets|).halted && run.After(|run.packets|).target.Checking?
  {
    hide VipRun.After;
  }

  lemma SignedLength(p: Plan)
    requires p.Valid()
    ensures |SignedFile(p)| <= 40 + 54 * 32
  {
  }

  lemma AfterStart(run: VipRun)
    requires run.Valid()
    ensures run.After(0) == Start(run.P(), run.signature)
  {
  }
}
