/** The queue of top-level callbacks, external/putty/callback.c: a linked list that grows
    while its own first entry is being run. */
module Callback {

  /** A function with its context. */
  datatype Call = Call(fn: int, ctx: int)

  // ---------- The meaning ----------

  /** What has been queued so far, what has been run, what is waiting, and how often the
      front end has been told. */
  datatype State = State(queued: seq<Call>, executed: seq<Call>, pending: seq<Call>, notified: nat)

  /** One operation: a call is queued from outside, or the runner is entered and the first
      callback, when it runs, queues further ones. */
  datatype Op = Queue(c: Call) | Run(spawned: seq<Call>)

  const START := State([], [], [], 0)

  function Queued(s: State, c: Call, asked: bool): State {
    State(s.queued + [c], s.executed, s.pending + [c],
          if asked && s.pending == [] then s.notified + 1 else s.notified)
  }

  function QueuedAll(s: State, cs: seq<Call>, asked: bool): State {
    if cs == [] then s else Queued(QueuedAll(s, cs[..|cs| - 1], asked), cs[|cs| - 1], asked)
  }

  /** The first callback stays in the list while it runs. */
  function Ran(s: State, spawned: seq<Call>, asked: bool): State {
    if s.pending == [] then s
    else
      var t := QueuedAll(s.(executed := s.executed + [s.pending[0]]), spawned, asked);
      t.(pending := if t.pending == [] then [] else t.pending[1..])
  }

  function Next(s: State, op: Op, asked: bool): State {
    match op
    case Queue(c) => Queued(s, c, asked)
    case Run(spawned) => Ran(s, spawned, asked)
  }

  function After(ops: seq<Op>, asked: bool): State {
    if ops == [] then START else Next(After(ops[..|ops| - 1], asked), ops[|ops| - 1], asked)
  }

  lemma {:induction false} QueuedAllIs(s: State, cs: seq<Call>, asked: bool)
    ensures var t := QueuedAll(s, cs, asked);
            && t.queued == s.queued + cs && t.executed == s.executed && t.pending == s.pending + cs
            && (s.pending != [] ==> t.notified == s.notified)
  {
    if cs != [] {
      QueuedAllIs(s, cs[..|cs| - 1], asked);
      assert cs == cs[..|cs| - 1] + [cs[|cs| - 1]];
    }
  }

  /** First in, first out, each exactly once: in every state that can be reached, what has
      been queued is what has been run followed by what is waiting. */
  lemma {:induction false} FirstInFirstOut(ops: seq<Op>, asked: bool)
    ensures var s := After(ops, asked); s.queued == s.executed + s.pending
  {
    if ops != [] {
      var before := After(ops[..|ops| - 1], asked);
      FirstInFirstOut(ops[..|ops| - 1], asked);
      match ops[|ops| - 1]
      case Queue(c) =>
      case Run(spawned) =>
        if before.pending != [] {
          var p := before.pending;
          QueuedAllIs(before.(executed := before.executed + [p[0]]), spawned, asked);
          assert (p + spawned)[1..] == p[1..] + spawned;
          assert before.executed + p + spawned == before.executed + [p[0]] + (p[1..] + spawned);
        }
    }
  }

  /** How often the list has gone from empty to not empty. */
  function Filled(ops: seq<Op>, asked: bool): nat {
    if ops == [] then 0
    else
      var n := |ops| - 1;
      Filled(ops[..n], asked)
      + if After(ops[..n], asked).pending == [] && After(ops, asked).pending != [] then 1 else 0
  }

  /** The front end is told exactly when the list fills, and never while a callback runs. */
  lemma {:induction false} NotifiedWhenFilled(ops: seq<Op>, asked: bool)
    ensures After(ops, asked).notified == if asked then Filled(ops, asked) else 0
  {
    if ops != [] {
      var n := |ops| - 1;
      var before := After(ops[..n], asked);
      NotifiedWhenFilled(ops[..n], asked);
      match ops[n]
      case Queue(c) =>
      case Run(spawned) =>
        if before.pending != [] {
          QueuedAllIs(before.(executed := before.executed + [before.pending[0]]), spawned, asked);
        }
    }
  }

  /** Each entry of the runner takes one callback off the front: after as many as are
      waiting, all that were waiting have been run. */
  lemma {:induction false} RunsDown(s: State, spawns: seq<seq<Call>>, asked: bool)
    requires |spawns| <= |s.pending|
    ensures var t := RanAll(s, spawns, asked);
            t.executed == s.executed + s.pending[..|spawns|] && s.pending[|spawns|..] <= t.pending
    decreases |spawns|
  {
    if spawns != [] {
      var n := |spawns| - 1;
      var mid := RanAll(s, spawns[..n], asked);
      RunsDown(s, spawns[..n], asked);
      hide QueuedAll;
      RunsOne(mid, spawns[n], asked);
      assert s.pending[n..][0] == s.pending[n] && s.pending[n..][1..] == s.pending[n + 1..];
      assert s.pending[..n + 1] == s.pending[..n] + [s.pending[n]];
    }
  }

  lemma RunsOne(s: State, spawned: seq<Call>, asked: bool)
    requires s.pending != []
    ensures var t := Ran(s, spawned, asked);
            t.executed == s.executed + [s.pending[0]] && t.pending == s.pending[1..] + spawned
  {
    hide QueuedAll;
    QueuedAllIs(s.(executed := s.executed + [s.pending[0]]), spawned, asked);
    assert (s.pending + spawned)[1..] == s.pending[1..] + spawned;
  }

  function RanAll(s: State, spawns: seq<seq<Call>>, asked: bool): State {
    if spawns == [] then s else Ran(RanAll(s, spawns[..|spawns| - 1], asked), spawns[|spawns| - 1], asked)
  }

  // ---------- The list ----------

  class Node {
    var next: Node?
    const call: Call

    constructor (call: Call)
      ensures this.call == call && next == null
    {
      this.call := call;
      next := null;
    }
  }

  /** The calls of a chain of nodes. */
  ghost function Calls(nodes: seq<Node>): (cs: seq<Call>)
    ensures |cs| == |nodes| && forall i | 0 <= i < |nodes| :: cs[i] == nodes[i].call
  {
    if nodes == [] then [] else Calls(nodes[..|nodes| - 1]) + [nodes[|nodes| - 1].call]
  }

  ghost function Following(nodes: seq<Node>, i: nat): Node? {
    if i + 1 < |nodes| then nodes[i + 1] else null
  }

  /** The nodes from head to tail, each pointing to the next. */
  ghost predicate Chain(head: Node?, tail: Node?, nodes: seq<Node>)
    reads nodes
  {
    && (nodes == [] ==> head == null && tail == null)
    && (nodes != [] ==> head == nodes[0] && tail == nodes[|nodes| - 1])
    && (forall i | 0 <= i < |nodes| :: nodes[i].next == Following(nodes, i))
    && (forall i, j | 0 <= i < j < |nodes| :: nodes[i] != nodes[j])
  }

  lemma ChainHead(head: Node?, tail: Node?, nodes: seq<Node>)
    requires Chain(head, tail, nodes)
    ensures head == null <==> nodes == []
    ensures nodes != [] ==> head == nodes[0]
  {
  }

  /** The chain without its first node. */
  lemma ChainTail(head: Node?, tail: Node?, nodes: seq<Node>)
    requires nodes != [] && Chain(head, tail, nodes)
    ensures head == nodes[0] && Chain(head.next, if |nodes| == 1 then null else tail, nodes[1..])
  {
  }

  class Toplevel {
    var cbhead: Node?
    var cbtail: Node?
    /** The front end has asked to be told, and how often it has been. */
    const asked: bool
    var notified: nat

    ghost var nodes: seq<Node>
    ghost var queued: seq<Call>
    ghost var executed: seq<Call>

    /** The list from head to tail is the chain of nodes. */
    ghost predicate Valid()
      reads this, nodes
    {
      Chain(cbhead, cbtail, nodes)
    }

    ghost function View(): State
      reads this, nodes
    {
      State(queued, executed, Calls(nodes), notified)
    }

    constructor (asked: bool)
      ensures Valid() && View() == START && this.asked == asked && nodes == []
    {
      this.asked := asked;
      cbhead, cbtail, notified := null, null, 0;
      nodes, queued, executed := [], [], [];
    }

    /** The links of queue_toplevel_callback. */
    method Link(cb: Node)
      requires Valid() && cb !in nodes
      modifies this`cbhead, this`cbtail, cb, nodes
      ensures Chain(cbhead, cbtail, nodes + [cb])
    {
      ghost var all := nodes + [cb];
      if cbtail != null {
        cbtail.next := cb;
      } else {
        cbhead := cb;
      }
      cbtail := cb;
      cb.next := null;
      forall i | 0 <= i < |all|
        ensures all[i].next == Following(all, i)
      {
        if i + 1 < |nodes| { assert all[i] == nodes[i] && Following(nodes, i) == nodes[i + 1]; }
      }
    }

    /** queue_toplevel_callback */
    method Queue(c: Call)
      requires Valid()
      modifies this, nodes
      ensures Valid() && View() == Queued(old(View()), c, asked)
      ensures |nodes| == |old(nodes)| + 1 && nodes[..|old(nodes)|] == old(nodes) && fresh(nodes[|old(nodes)|])
    {
      hide Chain, Calls;
      var cb := new Node(c);
      ChainHead(cbhead, cbtail, nodes);
      if asked && cbhead == null {
        notified := notified + 1;
      }
      Link(cb);
      CallsMore(nodes, cb);
      nodes := nodes + [cb];
      queued := queued + [c];
    }

    /** The body of a callback: whatever it queues. */
    method Spawn(spawned: seq<Call>)
      requires Valid()
      modifies this, nodes
      ensures Valid() && View() == QueuedAll(old(View()), spawned, asked)
      ensures |old(nodes)| <= |nodes| && nodes[..|old(nodes)|] == old(nodes)
      ensures forall j | |old(nodes)| <= j < |nodes| :: fresh(nodes[j])
    {
      hide Queued, Calls, Chain;
      ghost var n := |nodes|;
      for i := 0 to |spawned|
        invariant Valid() && View() == QueuedAll(old(View()), spawned[..i], asked)
        invariant n <= |nodes| && nodes[..n] == old(nodes) && forall j | n <= j < |nodes| :: fresh(nodes[j])
      {
        assert spawned[..i + 1][..i] == spawned[..i];
        Queue(spawned[i]);
      }
      assert spawned[..|spawned|] == spawned;
    }

    /** run_toplevel_callbacks, with the first callback queueing spawned while it runs. */
    method RunCallbacks(spawned: seq<Call>)
      requires Valid()
      modifies this, nodes
      ensures Valid() && View() == Ran(old(View()), spawned, asked)
      ensures forall j | 0 <= j < |nodes| :: nodes[j] in old(nodes) || fresh(nodes[j])
    {
      hide QueuedAll, Calls, Chain;
      ChainHead(cbhead, cbtail, nodes);
      if cbhead != null {
        var cb := cbhead;
        executed := executed + [cb.call];
        Spawn(spawned);
        assert nodes[0] == cb;
        CallsTail(nodes);
        ChainTail(cbhead, cbtail, nodes);
        ChainHead(cb.next, if |nodes| == 1 then null else cbtail, nodes[1..]);
        cbhead := cb.next;
        nodes := nodes[1..];
        if cbhead == null {
          cbtail := null;
        }
      }
    }

    /** toplevel_callback_pending */
    method Pending() returns (b: bool)
      requires Valid()
      ensures b <==> View().pending != []
    {
      b := cbhead != null;
    }

    /** A whole run from the outside. */
    method Drive(ops: seq<Op>)
      requires Valid() && View() == START && nodes == []
      modifies this
      ensures Valid() && View() == After(ops, asked) && queued == executed + Calls(nodes)
    {
      hide Next, Calls, Chain;
      for i := 0 to |ops|
        invariant Valid() && View() == After(ops[..i], asked)
        invariant forall j | 0 <= j < |nodes| :: fresh(nodes[j])
      {
        assert ops[..i + 1][..i] == ops[..i];
        NextIs(View(), ops[i], asked);
        match ops[i]
        case Queue(c) => Queue(c);
        case Run(spawned) => RunCallbacks(spawned);
      }
      assert ops[..|ops|] == ops;
      FirstInFirstOut(ops, asked);
    }
  }

  lemma NextIs(s: State, op: Op, asked: bool)
    ensures op.Queue? ==> Next(s, op, asked) == Queued(s, op.c, asked)
    ensures op.Run? ==> Next(s, op, asked) == Ran(s, op.spawned, asked)
  {
  }

  lemma {:induction false} CallsMore(nodes: seq<Node>, n: Node)
    ensures Calls(nodes + [n]) == Calls(nodes) + [n.call]
  {
  }

  lemma {:induction false} CallsTail(nodes: seq<Node>)
    requires nodes != []
    ensures Calls(nodes[1..]) == Calls(nodes)[1..]
  {
  }
}
