/** A node as a state machine: any number of incoming connections push what they receive onto one
    shared queue, and the response thread takes it off again. */
module Nodes {
  import opened Framing
  import opened Peers
  import opened Links

  /** Where the response thread is in `update`; `count` is its 8-bit message counter. */
  datatype Consumer =
    | Asleep
    | Testing(count: nat)    // at the condition of the inner loop
    | Popping(count: nat)    // the condition held, about to pop
    | Stopped

  /** `dispatched` and `pops` record history: what was handed to `onMessage`, and how many pops
      the current round has made. */
  datatype Node = Node(
    links: seq<Link>,
    queue: seq<Owned>,
    consumer: Consumer,
    maxMessages: nat,
    dispatched: seq<Owned>,
    pops: nat,
    fault: bool)

  predicate Init(n: Node) {
    && n.links == [] && n.queue == [] && n.consumer == Asleep && n.maxMessages < 256
    && n.dispatched == [] && n.pops == 0 && !n.fault
  }

  datatype Step =
    | Connect(link: Link)                  // a peer connects and is listened to
    | Network(i: nat, step: Links.Step)    // connection `i` takes a step
    | Wake                                 // the pause is over and no shutdown is seen
    | Shutdown                             // the pause is over and the shutdown is seen
    | Test                                 // the condition of the inner loop
    | Pop                                  // `popFront` and `onMessage`

  predicate Enabled(n: Node, step: Step) {
    match step
    case Connect(link) => Links.Init(link)
    case Network(i, s) => i < |n.links| && Links.Enabled(n.links[i], s)
    case Wake => n.consumer == Asleep
    case Shutdown => n.consumer == Asleep
    case Test => n.consumer.Testing?
    case Pop => n.consumer.Popping?
  }

  /** What the step of a connection pushes onto the shared queue. */
  function Pushed(i: nat, l: Link, l': Link): seq<Owned>
    requires |l.delivered| <= |l'.delivered|
  {
    Own(i, l'.delivered[|l.delivered|..])
  }

  lemma DeliveredGrows(l: Link, s: Links.Step)
    requires Links.Enabled(l, s)
    ensures l.delivered <= Links.Apply(l, s).delivered
  {
    hide EncodeHeader, DecodeHeader;
  }

  function Apply(n: Node, step: Step): Node
    requires Enabled(n, step)
  {
    match step
    case Connect(link) => n.(links := n.links + [link])
    case Network(i, s) =>
      DeliveredGrows(n.links[i], s);
      var l' := Links.Apply(n.links[i], s);
      n.(links := n.links[i := l'], queue := n.queue + Pushed(i, n.links[i], l'))
    case Wake => n.(consumer := Testing(0), pops := 0)
    case Shutdown => n.(consumer := Stopped)
    case Test =>
      var count := n.consumer.count;
      n.(consumer := if count < n.maxMessages && n.queue != [] then Popping(count) else Asleep)
    case Pop =>
      if n.queue == [] then n.(fault := true)
      else n.(queue := n.queue[1..], dispatched := n.dispatched + [n.queue[0]],
              consumer := Testing((n.consumer.count + 1) % 256), pops := n.pops + 1)
  }

  predicate Leads(n: Node, steps: seq<Step>, n': Node)
    decreases |steps|
  {
    if steps == [] then n == n'
    else Enabled(n, steps[0]) && Leads(Apply(n, steps[0]), steps[1..], n')
  }

  ghost predicate Reachable(n: Node) {
    exists init, steps :: Init(init) && Leads(init, steps, n)
  }

  // ----- One peer's share of a queue ------------------------------------------------------

  function Of(peer: nat, q: seq<Owned>): seq<Message> {
    if q == [] then []
    else Of(peer, q[..|q| - 1]) + if q[|q| - 1].peer == peer then [q[|q| - 1].msg] else []
  }

  lemma {:induction false} OfConcat(peer: nat, q: seq<Owned>, r: seq<Owned>)
    ensures Of(peer, q + r) == Of(peer, q) + Of(peer, r)
    decreases |r|
  {
    if r == [] {
      assert q + r == q;
    } else {
      assert (q + r)[..|q + r| - 1] == q + r[..|r| - 1];
      OfConcat(peer, q, r[..|r| - 1]);
    }
  }

  lemma {:induction false} OfOwn(peer: nat, owner: nat, ms: seq<Message>)
    ensures Of(peer, Own(owner, ms)) == if peer == owner then ms else []
    decreases |ms|
  {
    if ms != [] {
      var n := |ms| - 1;
      OfOwn(peer, owner, ms[..n]);
      assert Own(owner, ms)[..n] == Own(owner, ms[..n]);
      assert ms == ms[..n] + [ms[n]];
    }
  }

  // ----- The invariant --------------------------------------------------------------------

  /** The response thread: never beyond the limit, its counter exact, and once it has seen a
      message no one else takes it away. */
  predicate ConsumerInv(n: Node) {
    && !n.fault
    && n.maxMessages < 256
    && n.pops <= n.maxMessages
    && (n.consumer.Testing? ==> n.consumer.count == n.pops)
    && (n.consumer.Popping? ==> n.consumer.count == n.pops < n.maxMessages && n.queue != [])
  }

  /** Every message a connection has delivered is either dispatched or waiting, in order. */
  predicate QueueInv(n: Node) {
    && (forall i :: 0 <= i < |n.links| ==> Of(i, n.dispatched + n.queue) == n.links[i].delivered)
    && (forall k :: 0 <= k < |n.dispatched + n.queue| ==> (n.dispatched + n.queue)[k].peer < |n.links|)
  }

  predicate LinksInv(n: Node) {
    forall i :: 0 <= i < |n.links| ==> Links.Inv(n.links[i])
  }

  predicate Inv(n: Node) {
    ConsumerInv(n) && QueueInv(n) && LinksInv(n)
  }

  lemma {:induction false} OfStranger(peer: nat, q: seq<Owned>)
    requires forall k :: 0 <= k < |q| ==> q[k].peer != peer
    ensures Of(peer, q) == []
    decreases |q|
  {
    if q != [] {
      OfStranger(peer, q[..|q| - 1]);
    }
  }

  lemma ConnectKeepsInv(n: Node, link: Link)
    requires Inv(n) && Links.Init(link)
    ensures Inv(Apply(n, Connect(link)))
  {
    hide Links.Inv, Links.Init;
    Links.InitInv(link);
    assert link.delivered == [] by {
      NewLink(link);
    }
    OfStranger(|n.links|, n.dispatched + n.queue);
  }

  lemma NewLink(link: Link)
    requires Links.Init(link)
    ensures link.delivered == []
  {
  }

  lemma NetworkKeepsQueue(n: Node, i: nat, s: Links.Step)
    requires QueueInv(n) && Enabled(n, Network(i, s))
    ensures QueueInv(Apply(n, Network(i, s)))
  {
    hide Links.Apply, Links.Enabled, Of;
    var n' := Apply(n, Network(i, s));
    var l, l' := n.links[i], n'.links[i];
    DeliveredGrows(l, s);
    var pushed := Pushed(i, l, l');
    assert n'.dispatched + n'.queue == n.dispatched + n.queue + pushed;
    forall j | 0 <= j < |n'.links|
      ensures Of(j, n'.dispatched + n'.queue) == n'.links[j].delivered
    {
      OfConcat(j, n.dispatched + n.queue, pushed);
      OfOwn(j, i, l'.delivered[|l.delivered|..]);
      assert l.delivered + l'.delivered[|l.delivered|..] == l'.delivered;
    }
  }

  lemma NetworkKeepsInv(n: Node, i: nat, s: Links.Step)
    requires Inv(n) && Enabled(n, Network(i, s))
    ensures Inv(Apply(n, Network(i, s)))
  {
    hide Links.Inv, Links.Apply, Links.Enabled, QueueInv;
    NetworkKeepsQueue(n, i, s);
    Links.StepKeepsInv(n.links[i], s);
  }

  lemma StepKeepsInv(n: Node, step: Step)
    requires Inv(n) && Enabled(n, step)
    ensures Inv(Apply(n, step))
  {
    hide Links.Inv, Links.Apply, Links.Enabled, Links.Init, Of;
    match step
    case Connect(link) => ConnectKeepsInv(n, link);
    case Network(i, s) => NetworkKeepsInv(n, i, s);
    case Pop =>
      assert n.dispatched + [n.queue[0]] + n.queue[1..] == n.dispatched + n.queue;
    case _ =>
  }

  lemma {:induction false} RunKeepsInv(n: Node, steps: seq<Step>, n': Node)
    requires Inv(n) && Leads(n, steps, n')
    ensures Inv(n')
    decreases |steps|
  {
    hide Inv, Apply, Enabled;
    if steps != [] {
      StepKeepsInv(n, steps[0]);
      RunKeepsInv(Apply(n, steps[0]), steps[1..], n');
    }
  }

  lemma ReachableInv(n: Node)
    requires Reachable(n)
    ensures Inv(n)
  {
    hide Links.Inv;
    var init, steps :| Init(init) && Leads(init, steps, n);
    RunKeepsInv(init, steps, n);
  }

  // ----- Dispatching over every run -------------------------------------------------------

  /** The message that the emptiness test saw is still there when it is popped, and a round pops
      at most `maxMessages` times, so that its 8-bit counter never wraps around. */
  lemma PopIsSafe(n: Node)
    requires Reachable(n)
    ensures !n.fault
    ensures n.consumer.Popping? ==> n.queue != []
    ensures n.pops <= n.maxMessages < 256
    ensures n.consumer.Testing? ==> n.consumer.count == n.pops
    ensures Enabled(n, Pop) ==> Apply(n, Pop).consumer == Testing(n.consumer.count + 1)
  {
    hide Links.Inv, Links.Apply, Links.Enabled;
    ReachableInv(n);
  }

  /** Every message is dispatched at most once, and none is lost or made up: what each peer has
      delivered is what was dispatched of it followed by what is waiting of it. */
  lemma DispatchedOnceInOrder(n: Node, i: nat)
    requires Reachable(n) && i < |n.links|
    ensures Of(i, n.dispatched) + Of(i, n.queue) == n.links[i].delivered
  {
    hide Links.Inv;
    ReachableInv(n);
    OfConcat(i, n.dispatched, n.queue);
  }

  /** The beginning of what was received is what was received of the beginning. */
  lemma DeliveredTake(l: Link, k: nat)
    requires Links.Inv(l) && k <= |l.delivered|
    ensures k <= |l.sent| && l.delivered[..k] == Received(l.sent[..k])
  {
    hide SenderInv, ReadLoop, Received;
    var m := |l.delivered|;
    assert l.sent[..m][..k] == l.sent[..k];
    if k < m {
      ReceivedAt(l.sent[..m], k);
    } else {
      assert l.delivered[..k] == l.delivered;
    }
  }

  /** From the remote `send` to the local `onMessage`, over every run of all connections and the
      response thread: what is dispatched of a peer is what the receiver makes of the first
      messages that the peer sent, in order. */
  lemma DispatchedIsSentPrefix(n: Node, i: nat)
    requires Reachable(n) && i < |n.links|
    ensures var sent, k := n.links[i].sent, |Of(i, n.dispatched)|;
            k <= |sent| && Of(i, n.dispatched) == Received(sent[..k])
  {
    hide Of, Links.Inv, Received;
    ReachableInv(n);
    DispatchedOnceInOrder(n, i);
    var l, k := n.links[i], |Of(i, n.dispatched)|;
    assert l.delivered[..k] == Of(i, n.dispatched);
    DeliveredTake(l, k);
  }

  /** Once the response thread has seen the shutdown it dispatches nothing more, whatever the
      connections still receive. */
  lemma ShutdownIsFinal(n: Node, steps: seq<Step>, n': Node)
    requires Enabled(n, Shutdown) && Leads(Apply(n, Shutdown), steps, n')
    ensures n'.consumer == Stopped && n'.dispatched == n.dispatched
  {
    StoppedStays(Apply(n, Shutdown), steps, n');
  }

  lemma {:induction false} StoppedStays(n: Node, steps: seq<Step>, n': Node)
    requires n.consumer == Stopped && Leads(n, steps, n')
    ensures n'.consumer == Stopped && n'.dispatched == n.dispatched
    decreases |steps|
  {
    hide Links.Apply, Links.Enabled, Links.Init;
    if steps != [] {
      StoppedStays(Apply(n, steps[0]), steps[1..], n');
    }
  }
}
