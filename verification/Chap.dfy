/** CHAP authentication with a SOCKS proxy, external/putty/cproxy.c: a handler that is
    called for every piece of input and must not care how the input was cut. */
module Chap {
  import opened Bytes

  const CHAPPING := 8
  const AUTHENTICATED := 2

  /** The part of the proxy socket that the handler works on: its state, the counters of
      the current message, the attribute it waits for (-1 for none), the input not yet
      used, what it has sent, and whether it has closed the plug. */
  datatype Chap = Chap(state: int, num: nat, processed: nat, attribute: int, datalen: nat,
                       input: seq<byte>, sent: seq<byte>, closed: bool)
  {
    /** The handler only ever waits for a value that has some bytes. */
    predicate Valid() {
      && -1 <= attribute < 256 && num < 256 && datalen < 256
      && (attribute != -1 ==> num > 0 && datalen > 0)
      && (state != CHAPPING ==> num > 0)
      && (num == 0 ==> processed == 0) && processed <= num
    }

    predicate Busy() { !closed && (num == 0 || processed < num) }
  }

  function Feed(c: Chap, x: seq<byte>): Chap { c.(input := c.input + x) }

  type Hmac = seq<byte> -> seq<byte>

  function Reply(hmac: Hmac, challenge: seq<byte>): seq<byte> {
    [0x01, 0x01, 0x04, 0x10] + hmac(challenge)
  }

  // ---------- One turn ----------

  /** What an attribute does. The first byte looked at is that of the value, or the
      identifier, still in the buffer, when the value is empty. */
  function Act(hmac: Hmac, c: Chap, id: byte, value: seq<byte>): Chap {
    var first := if value == [] then id else value[0];
    if id == 0x00 then (if first == 0x00 then c.(state := AUTHENTICATED) else c.(closed := true))
    else if id == 0x03 then c.(sent := c.sent + Reply(hmac, value))
    else if id == 0x11 && first != 0x85 then c.(closed := true)
    else c
  }

  /** The counters after an attribute; a message that has not settled the matter makes
      room for the next one. */
  function Count(c: Chap): Chap {
    if c.closed then c
    else
      var d := c.(attribute := -1, processed := c.processed + 1);
      if d.state == CHAPPING && d.processed >= d.num then d.(num := 0, processed := 0, datalen := 0) else d
  }

  datatype Turn = More(c: Chap) | Wait(c: Chap)

  /** The value of the current attribute, once it is there. */
  function TakeValue(hmac: Hmac, c: Chap): (t: Turn)
    requires 0 <= c.attribute < 256
  {
    if |c.input| < c.datalen then Wait(c)
    else More(Count(Act(hmac, c.(input := c.input[c.datalen..]), c.attribute, c.input[..c.datalen])))
  }

  /** One turn of the loop. */
  function Step(hmac: Hmac, c: Chap): (t: Turn)
    requires c.Valid() && c.Busy()
  {
    if c.num > 0 && c.attribute != -1 then TakeValue(hmac, c)
    else if |c.input| < 2 then Wait(c)
    else
      var rest := c.(input := c.input[2..]);
      if c.num > 0 then TakeValue(hmac, rest.(attribute := c.input[0], datalen := c.input[1]))
      else if c.input[0] != 0x01 || c.input[1] == 0x00 then More(rest.(closed := true))
      else More(rest.(num := c.input[1]))
  }

  /** Every turn keeps the invariant, and one that goes on has used some input. */
  lemma StepKeeps(hmac: Hmac, c: Chap)
    requires c.Valid() && c.Busy()
    ensures Step(hmac, c).c.closed || Step(hmac, c).c.Valid()
    ensures Step(hmac, c).More? ==> |Step(hmac, c).c.input| < |c.input|
  {
    hide Reply;
  }

  /** The loop: all the turns there is input for. */
  function Run(hmac: Hmac, c: Chap): Chap
    requires c.closed || c.Valid()
    decreases |c.input|
  {
    if !c.Busy() then c
    else
      StepKeeps(hmac, c);
      match Step(hmac, c)
      case Wait(d) => d
      case More(d) => Run(hmac, d)
  }

  // ---------- Fragmentation ----------

  lemma RunKeeps(hmac: Hmac, c: Chap)
    requires c.closed || c.Valid()
    ensures Run(hmac, c).closed || Run(hmac, c).Valid()
    decreases |c.input|
  {
    hide Step;
    if c.Busy() {
      StepKeeps(hmac, c);
      if Step(hmac, c).More? { RunKeeps(hmac, Step(hmac, c).c); }
    }
  }

  lemma TakeValueFed(hmac: Hmac, c: Chap, y: seq<byte>)
    requires 0 <= c.attribute < 256
    ensures match TakeValue(hmac, c)
            case More(d) => TakeValue(hmac, Feed(c, y)) == More(Feed(d, y))
            case Wait(d) => d == c
  {
    hide Reply;
    if |c.input| >= c.datalen {
      assert (c.input + y)[..c.datalen] == c.input[..c.datalen];
      assert (c.input + y)[c.datalen..] == c.input[c.datalen..] + y;
    }
  }

  /** More input does not change a turn that had enough; a turn that had to wait is
      taken up where it stopped. */
  lemma StepFed(hmac: Hmac, c: Chap, y: seq<byte>)
    requires c.Valid() && c.Busy()
    ensures match Step(hmac, c)
            case More(d) => Step(hmac, Feed(c, y)) == More(Feed(d, y))
            case Wait(d) => d.Valid() && d.Busy() && Step(hmac, Feed(d, y)) == Step(hmac, Feed(c, y))
  {
    hide TakeValue;
    if c.num > 0 && c.attribute != -1 {
      TakeValueFed(hmac, c, y);
    } else if |c.input| >= 2 {
      assert (c.input + y)[2..] == c.input[2..] + y;
      if c.num > 0 {
        var d := c.(input := c.input[2..], attribute := c.input[0], datalen := c.input[1]);
        TakeValueFed(hmac, d, y);
        if TakeValue(hmac, d).Wait? { WaitingForSome(hmac, d); }
      }
    }
  }

  lemma WaitingForSome(hmac: Hmac, c: Chap)
    requires 0 <= c.attribute < 256 && TakeValue(hmac, c).Wait?
    ensures c.datalen > 0
  {
  }

  /** A call with some input and a call with the rest are one call with both. */
  lemma {:induction false} RunFed(hmac: Hmac, c: Chap, y: seq<byte>)
    requires c.closed || c.Valid()
    ensures var d := Run(hmac, c); (d.closed || d.Valid()) && Run(hmac, Feed(d, y)) == Run(hmac, Feed(c, y))
    decreases |c.input|
  {
    hide Step;
    RunKeeps(hmac, c);
    if c.Busy() {
      StepKeeps(hmac, c);
      StepFed(hmac, c, y);
      if Step(hmac, c).More? { RunFed(hmac, Step(hmac, c).c, y); }
    }
  }

  /** The handler called once for every piece of input. */
  function RunAll(hmac: Hmac, c: Chap, pieces: seq<seq<byte>>): (d: Chap)
    requires c.closed || c.Valid()
    ensures d.closed || d.Valid()
  {
    if pieces == [] then c
    else
      var d := RunAll(hmac, c, pieces[..|pieces| - 1]);
      RunKeeps(hmac, Feed(d, pieces[|pieces| - 1]));
      Run(hmac, Feed(d, pieces[|pieces| - 1]))
  }

  /** Main theorem. However the input is cut into pieces, the state, the bytes sent and
      the bytes left over are those of one call with all of it. */
  lemma {:induction false} FragmentationIndependent(hmac: Hmac, c: Chap, pieces: seq<seq<byte>>)
    requires (c.closed || c.Valid()) && pieces != []
    ensures RunAll(hmac, c, pieces) == Run(hmac, Feed(c, Concat(pieces)))
    decreases |pieces|
  {
    hide Run;
    var n := |pieces| - 1;
    var x, y := Concat(pieces[..n]), pieces[n];
    if n == 0 {
      assert x + y == y;
    } else {
      FragmentationIndependent(hmac, c, pieces[..n]);
      RunFed(hmac, Feed(c, x), y);
      assert c.input + x + y == c.input + (x + y);
    }
  }

  // ---------- What a message means ----------

  datatype Attribute = Attribute(id: byte, value: seq<byte>)

  /** Attributes that can be sent, and that the handler does not refuse. */
  predicate Acceptable(a: Attribute) {
    && |a.value| < 256
    && (a.id == 0x00 ==> a.value == [] || a.value[0] == 0x00)
    && (a.id == 0x11 ==> a.value != [] && a.value[0] == 0x85)
  }

  function EncodeOne(a: Attribute): seq<byte>
    requires |a.value| < 256
  {
    var head: seq<byte> := [a.id, |a.value|];
    head + a.value
  }

  predicate AllAcceptable(list: seq<Attribute>) {
    forall i | 0 <= i < |list| :: Acceptable(list[i])
  }

  function Encode(list: seq<Attribute>): seq<byte>
    requires AllAcceptable(list)
  {
    if list == [] then [] else EncodeOne(list[0]) + Encode(list[1..])
  }

  function EncodeMessage(list: seq<Attribute>): seq<byte>
    requires |list| < 256 && AllAcceptable(list)
  {
    var head: seq<byte> := [0x01, |list|];
    head + Encode(list)
  }

  /** All that the server's challenges are answered with. */
  function Replies(hmac: Hmac, list: seq<Attribute>): seq<byte> {
    if list == [] then []
    else (if list[0].id == 0x03 then Reply(hmac, list[0].value) else []) + Replies(hmac, list[1..])
  }

  /** Some attribute says that authentication has succeeded. */
  predicate Succeeds(list: seq<Attribute>) {
    exists i | 0 <= i < |list| :: list[i].id == 0x00
  }

  /** The state between two attributes of a message. */
  function Between(state: int, num: nat, processed: nat, datalen: nat, input: seq<byte>, sent: seq<byte>): Chap {
    Chap(state, num, processed, -1, datalen, input, sent, false)
  }

  lemma StepAttribute(hmac: Hmac, c: Chap, a: Attribute, rest: seq<byte>)
    requires c.Valid() && c.Busy() && c.num > 0 && c.attribute == -1 && Acceptable(a)
    requires c.input == EncodeOne(a) + rest
    ensures var state := if a.id == 0x00 then AUTHENTICATED else c.state;
            var sent := c.sent + if a.id == 0x03 then Reply(hmac, a.value) else [];
            Step(hmac, c) == More(
              if state == CHAPPING && c.processed + 1 == c.num then Between(state, 0, 0, 0, rest, sent)
              else Between(state, c.num, c.processed + 1, |a.value|, rest, sent))
  {
    hide Reply;
    assert c.input[2..] == a.value + rest;
    assert (a.value + rest)[..|a.value|] == a.value && (a.value + rest)[|a.value|..] == rest;
    assert c.sent + [] == c.sent;
  }

  lemma RunOn(hmac: Hmac, c: Chap)
    requires c.Valid() && c.Busy() && Step(hmac, c).More?
    ensures var d := Step(hmac, c).c; (d.closed || d.Valid()) && Run(hmac, c) == Run(hmac, d)
  {
  }

  lemma RunOver(hmac: Hmac, c: Chap)
    requires (c.closed || c.Valid()) && !c.Busy()
    ensures Run(hmac, c) == c
  {
  }

  lemma RunStops(hmac: Hmac, c: Chap)
    requires c.Valid() && c.Busy() && Step(hmac, c).Wait?
    ensures Run(hmac, c) == Step(hmac, c).c && Step(hmac, c).c.Busy()
  {
  }

  /** The state when all attributes of a message have been dealt with. */
  function After(hmac: Hmac, c: Chap, list: seq<Attribute>, rest: seq<byte>): Chap
    requires list != []
  {
    var sent := c.sent + Replies(hmac, list);
    if c.state == CHAPPING && !Succeeds(list) then Between(CHAPPING, 0, 0, 0, rest, sent)
    else Between(AUTHENTICATED, c.num, c.num, |list[|list| - 1].value|, rest, sent)
  }

  lemma AfterFirst(hmac: Hmac, c: Chap, d: Chap, list: seq<Attribute>, rest: seq<byte>)
    requires |list| > 1 && d.num == c.num && c.state in {CHAPPING, AUTHENTICATED}
    requires d.state == if list[0].id == 0x00 then AUTHENTICATED else c.state
    requires d.sent == c.sent + if list[0].id == 0x03 then Reply(hmac, list[0].value) else []
    ensures After(hmac, d, list[1..], rest) == After(hmac, c, list, rest)
  {
    hide Reply, Succeeds;
    SucceedsFirst(list);
    var one := if list[0].id == 0x03 then Reply(hmac, list[0].value) else [];
    assert c.sent + one + Replies(hmac, list[1..]) == c.sent + (one + Replies(hmac, list[1..]));
  }

  lemma AfterLast(hmac: Hmac, c: Chap, a: Attribute, rest: seq<byte>)
    requires c.state in {CHAPPING, AUTHENTICATED}
    ensures var state := if a.id == 0x00 then AUTHENTICATED else c.state;
            var sent := c.sent + if a.id == 0x03 then Reply(hmac, a.value) else [];
            After(hmac, c, [a], rest) == if state == CHAPPING then Between(state, 0, 0, 0, rest, sent)
                                         else Between(state, c.num, c.num, |a.value|, rest, sent)
  {
    hide Reply;
    var one := if a.id == 0x03 then Reply(hmac, a.value) else [];
    assert [a][1..] == [] && Replies(hmac, []) == [];
    assert Replies(hmac, [a]) == one + [] == one;
    assert Succeeds([a]) <==> [a][0].id == 0x00;
  }

  /** The attributes that are left of a message, all of them there. */
  lemma {:induction false} RunAttributes(hmac: Hmac, c: Chap, list: seq<Attribute>, rest: seq<byte>)
    requires c.Valid() && c.Busy() && c.num > 0 && c.attribute == -1 && c.num - c.processed == |list|
    requires AllAcceptable(list) && c.input == Encode(list) + rest && c.state in {CHAPPING, AUTHENTICATED}
    ensures Run(hmac, c) == Run(hmac, After(hmac, c, list, rest))
    decreases |list|
  {
    hide Step, Reply, Run, After, EncodeOne, Acceptable;
    var a, others := list[0], list[1..];
    assert Acceptable(a);
    ShortValue(a);
    assert c.input == EncodeOne(a) + (Encode(others) + rest);
    StepAttribute(hmac, c, a, Encode(others) + rest);
    RunOn(hmac, c);
    var d := Step(hmac, c).c;
    if |others| > 0 {
      RunAttributes(hmac, d, others, rest);
      AfterFirst(hmac, c, d, list, rest);
    } else {
      assert list == [a] && Encode(others) + rest == rest;
      AfterLast(hmac, c, a, rest);
    }
  }

  lemma ShortValue(a: Attribute)
    requires Acceptable(a)
    ensures |a.value| < 256
  {
  }

  lemma SucceedsFirst(list: seq<Attribute>)
    requires list != []
    ensures Succeeds(list) <==> list[0].id == 0x00 || Succeeds(list[1..])
  {
  }

  /** A whole message: the challenges in it are answered in order, and the handler goes
      on to the next message or, if authentication has succeeded, has finished. */
  lemma RunMessage(hmac: Hmac, list: seq<Attribute>, rest: seq<byte>, sent: seq<byte>)
    requires 0 < |list| < 256 && AllAcceptable(list)
    ensures var c := Between(CHAPPING, 0, 0, 0, EncodeMessage(list) + rest, sent);
            var now := sent + Replies(hmac, list);
            Run(hmac, c) == if Succeeds(list) then Between(AUTHENTICATED, |list|, |list|, |list[|list| - 1].value|, rest, now)
                            else Run(hmac, Between(CHAPPING, 0, 0, 0, rest, now))
  {
    hide Replies, Succeeds, Encode, Run;
    assert Acceptable(list[|list| - 1]);
    var c := Between(CHAPPING, 0, 0, 0, EncodeMessage(list) + rest, sent);
    var d := Between(CHAPPING, |list|, 0, 0, Encode(list) + rest, sent);
    StepHeader(hmac, c, list, rest);
    RunOn(hmac, c);
    RunAttributes(hmac, d, list, rest);
    if Succeeds(list) { RunOver(hmac, After(hmac, d, list, rest)); }
  }

  lemma StepHeader(hmac: Hmac, c: Chap, list: seq<Attribute>, rest: seq<byte>)
    requires c.Valid() && c.Busy() && c.num == 0 && c.attribute == -1 && 0 < |list| < 256 && AllAcceptable(list)
    requires c.input == EncodeMessage(list) + rest
    ensures Step(hmac, c) == More(c.(num := |list|, input := Encode(list) + rest))
  {
    hide Encode, AllAcceptable;
    assert c.input[2..] == Encode(list) + rest;
  }

  // ---------- The caller ----------

  /** The caller looks at the state first. */
  function Gated(hmac: Hmac, c: Chap): Chap
    requires c.closed || c.Valid()
  {
    if c.state == CHAPPING then Run(hmac, c) else c
  }

  /** Authenticated, but with attributes of the message still to come. */
  predicate Left(c: Chap) { c.state != CHAPPING && c.Busy() }

  /** There is enough input for another turn. */
  predicate Enough(c: Chap) { |c.input| >= if c.attribute == -1 then 2 else c.datalen }

  /** With the caller's test in front the cut does matter, in exactly one case: it falls
      behind the attribute that brings success, in a message that goes on. */
  lemma GateExact(hmac: Hmac, c: Chap, x: seq<byte>, y: seq<byte>)
    requires c.closed || c.Valid()
    ensures var d := Gated(hmac, Feed(c, x));
            && (d.closed || d.Valid())
            && (Gated(hmac, Feed(d, y)) == Gated(hmac, Feed(c, x + y))
                <==> !(c.state == CHAPPING && Left(d) && Enough(Feed(d, y))))
  {
    hide Step, Run;
    RunKeeps(hmac, Feed(c, x));
    RunFed(hmac, Feed(c, x), y);
    assert c.input + x + y == c.input + (x + y);
    var d := Gated(hmac, Feed(c, x));
    if c.state == CHAPPING && d.state != CHAPPING {
      MovesIffEnough(hmac, Feed(d, y));
    }
  }

  /** That case does occur: success first, and a choice of algorithm after the cut. */
  lemma CutMatters(hmac: Hmac)
    ensures var c := Between(CHAPPING, 0, 0, 0, [], []);
            var d := Gated(hmac, Feed(c, [0x01, 0x02, 0x00, 0x01, 0x00]));
            && (d.closed || d.Valid())
            && Gated(hmac, Feed(d, [0x11, 0x01, 0x85])) != Gated(hmac, Feed(c, [0x01, 0x02, 0x00, 0x01, 0x00, 0x11, 0x01, 0x85]))
  {
    hide *;
    var c := Between(CHAPPING, 0, 0, 0, [], []);
    var x: seq<byte>, y: seq<byte> := [0x01, 0x02, 0x00, 0x01, 0x00], [0x11, 0x01, 0x85];
    var c1 := Between(CHAPPING, 2, 0, 0, [0x00, 0x01, 0x00], []);
    var c2 := Between(AUTHENTICATED, 2, 1, 1, [], []);
    CutStates(c, x, y, c1, c2);
    CutFirst(hmac, c, x, c1);
    CutSecond(hmac, c1, c2);
    RunOn(hmac, Feed(c, x));
    RunOn(hmac, c1);
    StepWaits(hmac, c2);
    RunStops(hmac, c2);
    GateExact(hmac, c, x, y);
  }

  lemma CutStates(c: Chap, x: seq<byte>, y: seq<byte>, c1: Chap, c2: Chap)
    requires c == Between(CHAPPING, 0, 0, 0, [], []) && x == [0x01, 0x02, 0x00, 0x01, 0x00] && y == [0x11, 0x01, 0x85]
    requires c1 == Between(CHAPPING, 2, 0, 0, [0x00, 0x01, 0x00], []) && c2 == Between(AUTHENTICATED, 2, 1, 1, [], [])
    ensures c.Valid() && Feed(c, x).Valid() && Feed(c, x).Busy() && c1.Valid() && c1.Busy() && c2.Valid() && c2.Busy()
    ensures c.state == CHAPPING && Feed(c, x).state == CHAPPING && c2.num > 0 && !Enough(c2)
    ensures Left(c2) && Enough(Feed(c2, y))
    ensures x + y == [0x01, 0x02, 0x00, 0x01, 0x00, 0x11, 0x01, 0x85]
    ensures forall hmac :: Gated(hmac, Feed(c, x)) == Run(hmac, Feed(c, x))
  {
  }

  lemma CutFirst(hmac: Hmac, c: Chap, x: seq<byte>, c1: Chap)
    requires c == Between(CHAPPING, 0, 0, 0, [], []) && x == [0x01, 0x02, 0x00, 0x01, 0x00]
    requires c1 == Between(CHAPPING, 2, 0, 0, [0x00, 0x01, 0x00], [])
    ensures Feed(c, x).Valid() && Feed(c, x).Busy() && Step(hmac, Feed(c, x)) == More(c1)
  {
  }

  lemma CutSecond(hmac: Hmac, c1: Chap, c2: Chap)
    requires c1 == Between(CHAPPING, 2, 0, 0, [0x00, 0x01, 0x00], []) && c2 == Between(AUTHENTICATED, 2, 1, 1, [], [])
    ensures c1.Valid() && c1.Busy() && Step(hmac, c1) == More(c2)
  {
  }

  lemma MovesIffEnough(hmac: Hmac, c: Chap)
    requires (c.closed || c.Valid()) && c.state != CHAPPING
    ensures Run(hmac, c) != c <==> c.Busy() && Enough(c)
  {
    if c.Busy() {
      StepKeeps(hmac, c);
      StepWaits(hmac, c);
      if Step(hmac, c).More? { RunShrinks(hmac, Step(hmac, c).c); }
    }
  }

  lemma StepWaits(hmac: Hmac, c: Chap)
    requires c.Valid() && c.Busy() && c.num > 0
    ensures !Enough(c) ==> Step(hmac, c) == Wait(c)
    ensures Enough(c) ==> Step(hmac, c).More? || |Step(hmac, c).c.input| < |c.input|
  {
  }

  lemma {:induction false} RunShrinks(hmac: Hmac, c: Chap)
    requires c.closed || c.Valid()
    ensures |Run(hmac, c).input| <= |c.input|
    decreases |c.input|
  {
    if c.Busy() {
      StepKeeps(hmac, c);
      StepShrinks(hmac, c);
      hide Step;
      if Step(hmac, c).More? { RunShrinks(hmac, Step(hmac, c).c); }
    }
  }

  lemma StepShrinks(hmac: Hmac, c: Chap)
    requires c.Valid() && c.Busy()
    ensures |Step(hmac, c).c.input| <= |c.input|
  {
  }

  // ---------- The handler ----------

  class ProxySocket {
    var state: int
    var num: nat
    var processed: nat
    var attribute: int
    var datalen: nat
    var input: seq<byte>
    var sent: seq<byte>
    var closed: bool

    ghost function View(): Chap
      reads this
    {
      Chap(state, num, processed, attribute, datalen, input, sent, closed)
    }

    /** proxy_socks5_selectchap, when a user name or a password is set: the offer goes out
        and the handler is made ready. An empty name is sent as one zero byte. */
    method SelectChap(username: seq<byte>)
      requires !closed
      modifies this
      ensures View() == Between(CHAPPING, 0, 0, 0, old(input), sent) && View().Valid()
      ensures exists name :: Offered(username, name) && sent == old(sent) + [1, 2, 0x11, 1, 0x85, 2, |name|] + name
    {
      var ulen := |username|;
      if ulen > 255 { ulen := 255; }
      if ulen < 1 { ulen := 1; }
      var name := (username + [0])[..ulen];
      assert Offered(username, name);
      var chapbuf: seq<byte> := [1, 2, 0x11, 1, 0x85, 2, ulen];
      sent := sent + chapbuf + name;
      num := 0;
      processed := 0;
      attribute := -1;
      datalen := 0;
      state := CHAPPING;
    }

    /** bufchain_fetch and bufchain_consume. */
    method Take(data: array<byte>, n: nat)
      requires n <= |input| && n <= data.Length
      modifies `input, data
      ensures input == old(input)[n..]
      ensures forall i | 0 <= i < data.Length :: data[i] == if i < n then old(input)[i] else old(data[i])
    {
      CopyInto(data, 0, input[..n]);
      input := input[n..];
    }

    /** The switch over the attribute, whose value lies in the buffer. */
    method Obey(hmac: Hmac, data: array<byte>)
      requires 0 <= attribute < 256 && datalen <= 255 < data.Length && (datalen == 0 ==> data[0] == attribute)
      modifies this`state, this`sent, this`closed
      ensures View() == Act(hmac, old(View()), old(attribute), old(data[..datalen]))
    {
      hide Reply;
      if attribute == 0x00 {
        if data[0] == 0x00 {
          state := AUTHENTICATED;
        } else {
          closed := true;
        }
      } else if attribute == 0x03 {
        sent := sent + Reply(hmac, data[..datalen]);
      } else if attribute == 0x11 {
        if data[0] != 0x85 {
          closed := true;
        }
      }
    }

    /** The second half of a turn: the value of an attribute, and the counters. */
    method HandleValue(hmac: Hmac, data: array<byte>) returns (wait: bool)
      requires 0 <= attribute < 256 && datalen <= 255 < data.Length && (datalen == 0 ==> data[0] == attribute) && !closed
      modifies this, data
      ensures View() == TakeValue(hmac, old(View())).c && wait == TakeValue(hmac, old(View())).Wait?
    {
      hide Act;
      if |input| < datalen {
        return true;
      }
      ghost var value := input[..datalen];
      Take(data, datalen);
      assert data[..datalen] == value;
      Obey(hmac, data);
      if !closed {
        attribute := -1;
        processed := processed + 1;
        if state == CHAPPING && processed >= num {
          num := 0;
          processed := 0;
          datalen := 0;
        }
      }
      return false;
    }

    /** The body of the loop. */
    method HandleTurn(hmac: Hmac, data: array<byte>) returns (wait: bool)
      requires View().Valid() && View().Busy() && data.Length == 260
      modifies this, data
      ensures View() == Step(hmac, old(View())).c && wait == Step(hmac, old(View())).Wait?
    {
      hide TakeValue;
      if num == 0 || attribute == -1 {
        if |input| < 2 {
          return true;
        }
        Take(data, 2);
      }
      if num == 0 {
        if data[0] != 0x01 {
          closed := true;
          return false;
        }
        if data[1] == 0x00 {
          closed := true;
          return false;
        }
        num := data[1];
        return false;
      }
      if attribute == -1 {
        attribute := data[0];
        datalen := data[1];
      }
      wait := HandleValue(hmac, data);
    }

    /** proxy_socks5_handlechap: 1 to be called again with more input, or when the plug has
        been closed; 0 when authentication is over. The buffer starts with arbitrary
        bytes, and none of them matters. */
    method HandleChap(hmac: Hmac) returns (ret: int)
      requires View().Valid() && !closed
      modifies this
      ensures View() == Run(hmac, old(View()))
      ensures ret == if View().Busy() || closed then 1 else 0
    {
      hide Step, Run;
      var data := new byte[260];
      while num == 0 || processed < num
        invariant View().Valid() && !closed && Run(hmac, View()) == Run(hmac, old(View()))
        decreases |input|
      {
        ghost var c := View();
        StepKeeps(hmac, c);
        var wait := HandleTurn(hmac, data);
        if wait {
          RunStops(hmac, c);
          return 1;
        }
        RunOn(hmac, c);
        if closed {
          RunOver(hmac, View());
          return 1;
        }
      }
      RunOver(hmac, View());
      return 0;
    }
  }

  /** The name that is sent: as much as one byte can count, and never nothing. */
  ghost predicate Offered(username: seq<byte>, name: seq<byte>) {
    1 <= |name| <= 255 && (username == [] ==> name == [0])
    && (username != [] ==> name <= username && (|username| <= 255 ==> name == username) && (|username| > 255 ==> |name| == 255))
  }
}
