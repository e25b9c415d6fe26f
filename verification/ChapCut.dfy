/** Where a CHAP message may be cut between two calls, external/putty/cproxy.c. */
module ChapCut {
  import opened Bytes
  import opened Chap

  /** How many attributes of the list lie wholly in the first n bytes of its encoding. */
  function Whole(list: seq<Attribute>, n: nat): (k: nat)
    requires AllAcceptable(list)
    ensures k <= |list|
  {
    if list == [] || n < |EncodeOne(list[0])| then 0 else 1 + Whole(list[1..], n - |EncodeOne(list[0])|)
  }

  /** What is left of the first n bytes behind the whole attributes. */
  function Rest(list: seq<Attribute>, n: nat): seq<byte>
    requires AllAcceptable(list) && n <= |Encode(list)|
  {
    if list == [] || n < |EncodeOne(list[0])| then Encode(list)[..n]
    else Rest(list[1..], n - |EncodeOne(list[0])|)
  }

  lemma EncodeFirst(list: seq<Attribute>)
    requires AllAcceptable(list)
    ensures Encode(list) == if list == [] then [] else EncodeOne(list[0]) + Encode(list[1..])
  {
  }

  lemma {:induction false} WholeSplits(list: seq<Attribute>, n: nat)
    requires AllAcceptable(list) && n <= |Encode(list)|
    ensures var k := Whole(list, n);
            && Encode(list)[..n] == Encode(list[..k]) + Rest(list, n)
            && Rest(list, n) + Encode(list)[n..] == Encode(list[k..])
            && (k == |list| ==> Rest(list, n) == [])
            && (k < |list| ==> |Rest(list, n)| < |EncodeOne(list[k])|)
    decreases |list|
  {
    hide Encode, EncodeOne, Acceptable;
    EncodeFirst(list);
    var k := Whole(list, n);
    if list != [] {
      assert Acceptable(list[0]);
      ShortValue(list[0]);
    }
    if list == [] || n < |EncodeOne(list[0])| {
      EncodeFirst([]);
      assert list[..0] == [] && list[0..] == list;
      assert Encode(list)[..n] + Encode(list)[n..] == Encode(list);
      assert [] + Encode(list)[..n] == Encode(list)[..n];
    } else {
      var one, others, m := EncodeOne(list[0]), list[1..], n - |EncodeOne(list[0])|;
      WholeSplits(others, m);
      EncodeFirst(list[..k]);
      assert list[..k][0] == list[0] && list[..k][1..] == others[..k - 1] && list[k..] == others[k - 1..];
      Cut(one, Encode(others), n);
      assert one + (Encode(others[..k - 1]) + Rest(others, m)) == one + Encode(others[..k - 1]) + Rest(others, m);
    }
  }

  lemma Cut(a: seq<byte>, b: seq<byte>, n: nat)
    requires |a| <= n <= |a| + |b|
    ensures (a + b)[..n] == a + b[..n - |a|] && (a + b)[n..] == b[n - |a|..]
  {
  }

  /** The state when some attributes of a message have been dealt with, but not all. */
  function Upto(hmac: Hmac, c: Chap, done: seq<Attribute>, rest: seq<byte>): Chap {
    if done == [] then c.(input := rest)
    else Between(if Succeeds(done) then AUTHENTICATED else c.state, c.num, c.processed + |done|,
                 |done[|done| - 1].value|, rest, c.sent + Replies(hmac, done))
  }

  lemma UptoFirst(hmac: Hmac, c: Chap, d: Chap, done: seq<Attribute>, rest: seq<byte>)
    requires done != [] && d.num == c.num && d.processed == c.processed + 1 && d.attribute == -1 && !d.closed
    requires d.datalen == |done[0].value| && c.state in {CHAPPING, AUTHENTICATED}
    requires d.state == if done[0].id == 0x00 then AUTHENTICATED else c.state
    requires d.sent == c.sent + if done[0].id == 0x03 then Reply(hmac, done[0].value) else []
    ensures Upto(hmac, d, done[1..], rest) == Upto(hmac, c, done, rest)
  {
    hide Reply, Succeeds;
    SucceedsFirst(done);
    NoneSucceeds();
    var one := if done[0].id == 0x03 then Reply(hmac, done[0].value) else [];
    if |done| == 1 {
      assert done[1..] == [] && Replies(hmac, []) == [];
      assert Replies(hmac, done) == one + [] == one;
    } else {
      assert c.sent + one + Replies(hmac, done[1..]) == c.sent + (one + Replies(hmac, done[1..]));
    }
  }

  lemma NoneSucceeds()
    ensures !Succeeds([])
  {
  }

  /** The first attributes of a message, with more of them to come. */
  lemma {:induction false} RunSome(hmac: Hmac, c: Chap, done: seq<Attribute>, rest: seq<byte>)
    requires c.Valid() && c.Busy() && c.num > 0 && c.attribute == -1 && c.num - c.processed > |done|
    requires AllAcceptable(done) && c.input == Encode(done) + rest && c.state in {CHAPPING, AUTHENTICATED}
    ensures Upto(hmac, c, done, rest).Valid() && Run(hmac, c) == Run(hmac, Upto(hmac, c, done, rest))
    decreases |done|
  {
    hide Step, Reply, Run, EncodeOne, Acceptable, Encode, Replies, Succeeds;
    EncodeFirst(done);
    if done == [] {
      assert Encode(done) + rest == rest;
    } else {
      var a, others := done[0], done[1..];
      assert Acceptable(a);
      ShortValue(a);
      assert c.input == EncodeOne(a) + (Encode(others) + rest);
      StepAttribute(hmac, c, a, Encode(others) + rest);
      RunOn(hmac, c);
      var d := Step(hmac, c).c;
      RunSome(hmac, d, others, rest);
      UptoFirst(hmac, c, d, done, rest);
    }
  }

  /** A turn that finds only part of an attribute waits, and the rest of it is enough to
      go on. */
  lemma WaitsFor(hmac: Hmac, c: Chap, a: Attribute, y: seq<byte>, rest: seq<byte>)
    requires c.Valid() && c.Busy() && c.num > 0 && c.attribute == -1 && Acceptable(a)
    requires c.input + y == EncodeOne(a) + rest && |c.input| < |EncodeOne(a)|
    ensures Step(hmac, c).Wait?
    ensures var d := Step(hmac, c).c; d.state == c.state && d.Busy() && Enough(Feed(d, y))
  {
    var whole := c.input + y;
    if |c.input| >= 2 {
      assert c.input[1] == whole[1] == |a.value|;
    }
  }

  /** The first bytes of a message, and the state they leave: success is known exactly
      when an attribute that says so is wholly there, and while attributes are missing
      the handler waits for what the rest of the message brings. */
  lemma AfterCut(hmac: Hmac, list: seq<Attribute>, n: nat, sent: seq<byte>)
    requires 0 < |list| < 256 && AllAcceptable(list) && 2 <= n <= |EncodeMessage(list)|
    ensures var c := Between(CHAPPING, 0, 0, 0, EncodeMessage(list)[..n], sent);
            var k := Whole(list, n - 2);
            && (Left(Run(hmac, c)) <==> k < |list| && Succeeds(list[..k]))
            && (k < |list| ==> Enough(Feed(Run(hmac, c), EncodeMessage(list)[n..])))
  {
    hide Run, Step, Encode, EncodeOne, Acceptable, Replies, Succeeds, Whole, Rest, Enough;
    var m, k := n - 2, Whole(list, n - 2);
    var part, y := Rest(list, m), EncodeMessage(list)[n..];
    WholeSplits(list, m);
    var x := EncodeMessage(list)[..n];
    assert x == [0x01, |list|] + (Encode(list[..k]) + part) && y == Encode(list)[m..];
    var c := Between(CHAPPING, 0, 0, 0, x, sent);
    var d := Between(CHAPPING, |list|, 0, 0, Encode(list[..k]) + part, sent);
    assert Step(hmac, c) == More(d) by { HeaderStep(hmac, c, |list|, Encode(list[..k]) + part); }
    RunOn(hmac, c);
    if k < |list| {
      RunSome(hmac, d, list[..k], part);
      var e := Upto(hmac, d, list[..k], part);
      NoneSucceeds();
      assert Acceptable(list[k]);
      EncodeFirst(list[k..]);
      WaitsFor(hmac, e, list[k], y, Encode(list[k..][1..]));
      RunStops(hmac, e);
    } else {
      assert list[..k] == list && Encode(list) + part == Encode(list) + [];
      assert Acceptable(list[|list| - 1]);
      ShortValue(list[|list| - 1]);
      RunAttributes(hmac, d, list, []);
      NothingLeft(hmac, d, list);
    }
  }

  lemma HeaderStep(hmac: Hmac, c: Chap, num: nat, rest: seq<byte>)
    requires c.Valid() && c.Busy() && c.num == 0 && c.attribute == -1 && 0 < num < 256
    requires c.input == [0x01, num] + rest
    ensures Step(hmac, c) == More(c.(num := num, input := rest))
  {
    assert c.input[2..] == rest;
  }

  lemma NothingLeft(hmac: Hmac, d: Chap, list: seq<Attribute>)
    requires list != [] && 0 < d.num < 256 && |list[|list| - 1].value| < 256 && d.state == CHAPPING
    ensures var e := After(hmac, d, list, []); (e.closed || e.Valid()) && !Left(Run(hmac, e))
  {
    hide Replies, Succeeds, Step, Run;
    var e := After(hmac, d, list, []);
    if e.Busy() {
      EmptyWaits(hmac, e);
      RunStops(hmac, e);
    } else {
      RunOver(hmac, e);
    }
  }

  lemma EmptyWaits(hmac: Hmac, e: Chap)
    requires e.Valid() && e.Busy() && e.num == 0 && e.input == []
    ensures Step(hmac, e) == Wait(e)
  {
  }

  /** Main theorem. A message handed over in two pieces, with the caller's test in front of
      each call, comes out like the message in one piece, unless the cut leaves some
      attributes to come and one that brings success wholly in front of it. */
  lemma CutExact(hmac: Hmac, list: seq<Attribute>, n: nat, sent: seq<byte>)
    requires 0 < |list| < 256 && AllAcceptable(list) && n <= |EncodeMessage(list)|
    ensures var c := Between(CHAPPING, 0, 0, 0, [], sent);
            var x, y := EncodeMessage(list)[..n], EncodeMessage(list)[n..];
            var d := Gated(hmac, Feed(c, x));
            && (d.closed || d.Valid())
            && (Gated(hmac, Feed(d, y)) == Gated(hmac, Feed(c, x + y))
                <==> !(n >= 2 && Whole(list, n - 2) < |list| && Succeeds(list[..Whole(list, n - 2)])))
  {
    hide Run, Step, Encode, EncodeMessage, Acceptable, Succeeds, Whole, Enough;
    var c := Between(CHAPPING, 0, 0, 0, [], sent);
    var x, y := EncodeMessage(list)[..n], EncodeMessage(list)[n..];
    GateExact(hmac, c, x, y);
    assert [] + x == x;
    if n >= 2 {
      AfterCut(hmac, list, n, sent);
    } else {
      ShortWaits(hmac, Feed(c, x));
      RunStops(hmac, Feed(c, x));
    }
  }

  lemma ShortWaits(hmac: Hmac, c: Chap)
    requires c.Valid() && c.Busy() && c.num == 0 && |c.input| < 2
    ensures Step(hmac, c) == Wait(c)
  {
  }
}
