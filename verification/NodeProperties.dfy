/** What holds over every run of a node in which nothing new is sent and nothing fails: all that was
    sent reaches `onMessage`. */
module NodeProperties {
  import opened Framing
  import Links
  import L = LinkProperties
  import opened Nodes

  // ----- Quiet steps ----------------------------------------------------------------------

  /** Steps other than new sends, failures, disconnections, new connections and the shutdown. */
  predicate Quiet(step: Step) {
    match step
    case Network(_, s) => L.Quiet(s)
    case Wake => true
    case Test => true
    case Pop => true
    case _ => false
  }

  predicate Healthy(n: Node) {
    && Inv(n) && n.maxMessages > 0 && n.consumer != Stopped
    && forall i :: 0 <= i < |n.links| ==> L.Healthy(n.links[i])
  }

  /** A running node whose connections are all open is healthy. */
  lemma OpenIsHealthy(n: Node)
    requires Reachable(n) && n.maxMessages > 0 && n.consumer != Stopped
    requires forall i :: 0 <= i < |n.links| ==> n.links[i].src.open && n.links[i].dst.open
    ensures Healthy(n)
  {
    hide Links.Inv;
    ReachableInv(n);
    forall i | 0 <= i < |n.links| ensures L.Healthy(n.links[i]) {
      L.OpenInvIsHealthy(n.links[i]);
    }
  }

  // ----- The work left --------------------------------------------------------------------

  function LinksWork(links: seq<Links.Link>): nat {
    if links == [] then 0 else L.Measure(links[0]) + LinksWork(links[1..])
  }

  /** How many steps the response thread is away from its next pop. */
  function Distance(n: Node): nat {
    match n.consumer
    case Popping(_) => 0
    case Testing(count) => if count < n.maxMessages then 1 else 3
    case Asleep => 2
    case Stopped => 0
  }

  /** An idle thread is taken to be as far away as can be, wherever it is. */
  function QueueWork(n: Node): nat {
    4 * |n.queue| + if n.queue == [] then 3 else Distance(n)
  }

  /** A step of a connection may put one message on the queue, which costs less than the step saves. */
  function Work(n: Node): nat {
    5 * LinksWork(n.links) + QueueWork(n)
  }

  /** The thread looks at an empty queue, or goes to sleep over it. */
  predicate Idle(n: Node, step: Step) {
    n.queue == [] && (step.Wake? || step.Test?)
  }

  lemma {:induction false} LinksWorkUpdate(links: seq<Links.Link>, i: nat, l: Links.Link)
    requires i < |links|
    ensures LinksWork(links[i := l]) + L.Measure(links[i]) == LinksWork(links) + L.Measure(l)
    decreases |links|
  {
    hide L.Measure;
    var updated := links[i := l];
    if i == 0 {
      assert updated[1..] == links[1..];
    } else {
      assert updated[1..] == links[1..][i - 1 := l];
      LinksWorkUpdate(links[1..], i - 1, l);
    }
  }

  lemma DeliversAtMostOne(l: Links.Link, s: Links.Step)
    requires Links.Enabled(l, s)
    ensures |Links.Apply(l, s).delivered| <= |l.delivered| + 1
  {
    hide EncodeHeader, DecodeHeader;
  }

  lemma NetworkStep(n: Node, i: nat, s: Links.Step)
    requires Healthy(n) && i < |n.links| && L.Quiet(s) && Links.Enabled(n.links[i], s)
    ensures var n' := Apply(n, Network(i, s));
            && |n'.links| == |n.links| && n'.maxMessages == n.maxMessages && n'.consumer == n.consumer
            && (forall k :: 0 <= k < |n.links| ==> n'.links[k].sent == n.links[k].sent && L.Healthy(n'.links[k]))
            && Work(n') < Work(n)
  {
    hide Links.Apply, Links.Enabled, L.Measure, L.Quiet, L.Healthy, LinksWork, Inv;
    var l := n.links[i];
    var l' := Links.Apply(l, s);
    L.QuietStep(l, s);
    DeliveredGrows(l, s);
    DeliversAtMostOne(l, s);
    LinksWorkUpdate(n.links, i, l');
  }

  /** Every quiet step leaves the node healthy, and makes the work less unless it is idle. */
  lemma QuietStep(n: Node, step: Step)
    requires Healthy(n) && Quiet(step) && Enabled(n, step)
    ensures var n' := Apply(n, step);
            && Healthy(n') && |n'.links| == |n.links|
            && (forall k :: 0 <= k < |n.links| ==> n'.links[k].sent == n.links[k].sent)
            && if Idle(n, step) then Work(n') == Work(n) else Work(n') < Work(n)
  {
    hide Links.Apply, Links.Enabled, L.Measure, L.Quiet, L.Healthy, LinksWork, QueueInv, LinksInv;
    StepKeepsInv(n, step);
    if step.Network? {
      NetworkStep(n, step.i, step.step);
    }
  }

  // ----- Draining -------------------------------------------------------------------------

  predicate AllQuiet(steps: seq<Step>) {
    forall i :: 0 <= i < |steps| ==> Quiet(steps[i])
  }

  /** How many steps of a run are not idle. */
  function Busy(n: Node, steps: seq<Step>): nat
    decreases |steps|
  {
    if steps == [] || !Enabled(n, steps[0]) then 0
    else (if Idle(n, steps[0]) then 0 else 1) + Busy(Apply(n, steps[0]), steps[1..])
  }

  /** However long a quiet run is, no more than the work of its first state is not idle. */
  lemma {:induction false} BusyBounded(n: Node, steps: seq<Step>, n': Node)
    requires Healthy(n) && AllQuiet(steps) && Leads(n, steps, n')
    ensures Healthy(n') && |n'.links| == |n.links|
    ensures forall k :: 0 <= k < |n.links| ==> n'.links[k].sent == n.links[k].sent
    ensures Busy(n, steps) + Work(n') <= Work(n)
    decreases |steps|
  {
    hide Healthy, Work, Apply, Enabled, Quiet, Idle;
    if steps != [] {
      QuietStep(n, steps[0]);
      BusyBounded(Apply(n, steps[0]), steps[1..], n');
    }
  }

  /** Nothing is left to do but to look at the empty queue. */
  ghost predicate OnlyIdle(n: Node) {
    forall step :: Quiet(step) && Enabled(n, step) ==> Idle(n, step)
  }

  predicate AllDispatched(n: Node) {
    && n.queue == []
    && forall i :: 0 <= i < |n.links| ==>
         L.AllDelivered(n.links[i]) && Of(i, n.dispatched) == Received(n.links[i].sent)
  }

  lemma QueueIsEmpty(n: Node)
    requires Healthy(n) && OnlyIdle(n)
    ensures n.queue == []
  {
    hide Inv, L.Healthy, Links.Enabled, L.Quiet;
    var step := match n.consumer case Popping(_) => Pop case Testing(_) => Test case _ => Wake;
    assert Quiet(step) && Enabled(n, step);
  }

  lemma LinkIsQuiescent(n: Node, i: nat)
    requires OnlyIdle(n) && i < |n.links|
    ensures L.Quiescent(n.links[i])
  {
    hide Links.Enabled, L.Quiet;
    forall s | L.Quiet(s) ensures !Links.Enabled(n.links[i], s) {
      assert Quiet(Network(i, s)) && !Idle(n, Network(i, s));
    }
  }

  /** When only idle steps are left, everything sent to the node has been handed to `onMessage`. */
  lemma OnlyIdleHasDispatched(n: Node)
    requires Healthy(n) && OnlyIdle(n)
    ensures AllDispatched(n)
  {
    hide L.Healthy, L.Quiescent, L.AllDelivered, Links.Inv, OnlyIdle, Of;
    QueueIsEmpty(n);
    forall i | 0 <= i < |n.links|
      ensures L.AllDelivered(n.links[i]) && Of(i, n.dispatched) == Received(n.links[i].sent)
    {
      LinkIsQuiescent(n, i);
      L.QuiescentHasDelivered(n.links[i]);
      assert n.dispatched + n.queue == n.dispatched;
      DeliveredIs(n.links[i]);
    }
  }

  lemma DeliveredIs(l: Links.Link)
    requires L.AllDelivered(l)
    ensures l.delivered == Received(l.sent)
  {
  }

  /** A quiet run that goes on until only idle steps are left has dispatched, of every peer, all
      that the peer sent; and no more than the work of its first state is not idle on the way. */
  lemma QuietRunDispatches(n: Node, steps: seq<Step>, n': Node)
    requires Healthy(n) && AllQuiet(steps) && Leads(n, steps, n')
    ensures Busy(n, steps) <= Work(n)
    ensures OnlyIdle(n') ==> AllDispatched(n')
    ensures |n'.links| == |n.links| && forall i :: 0 <= i < |n.links| ==> n'.links[i].sent == n.links[i].sent
  {
    hide Healthy, Work, Quiet, Idle, OnlyIdle, AllDispatched;
    BusyBounded(n, steps, n');
    if OnlyIdle(n') {
      OnlyIdleHasDispatched(n');
    }
  }

  /** From every healthy node there is such a run. */
  lemma {:induction false} CanDispatch(n: Node) returns (steps: seq<Step>, n': Node)
    requires Healthy(n)
    ensures AllQuiet(steps) && Leads(n, steps, n') && AllDispatched(n')
    ensures |n'.links| == |n.links| && forall i :: 0 <= i < |n.links| ==> n'.links[i].sent == n.links[i].sent
    decreases Work(n)
  {
    hide Healthy, Work, Quiet, Enabled, Apply, Idle, AllDispatched;
    if OnlyIdle(n) {
      OnlyIdleHasDispatched(n);
      steps, n' := [], n;
    } else {
      var step :| Quiet(step) && Enabled(n, step) && !Idle(n, step);
      QuietStep(n, step);
      var rest;
      rest, n' := CanDispatch(Apply(n, step));
      steps := [step] + rest;
    }
  }

  // ----- The response thread alone --------------------------------------------------------

  predicate ThreadOnly(steps: seq<Step>) {
    forall i :: 0 <= i < |steps| ==> steps[i].Wake? || steps[i].Test? || steps[i].Pop?
  }

  lemma ThreadStep(n: Node, step: Step)
    requires Healthy(n) && Enabled(n, step) && (step.Wake? || step.Test? || step.Pop?)
    ensures var n' := Apply(n, step);
            Healthy(n') && if n.queue == [] then n'.queue == [] else QueueWork(n') < QueueWork(n)
  {
    hide Links.Apply, Links.Enabled, L.Healthy, LinksWork, QueueInv, LinksInv;
    StepKeepsInv(n, step);
  }

  /** The thread empties the queue within four of its own steps for every message, and three more,
      whatever `maxMessages` is: if no more arrive, no message waits for ever. */
  lemma {:induction false} ThreadEmptiesQueue(n: Node, steps: seq<Step>, n': Node)
    requires Healthy(n) && ThreadOnly(steps) && Leads(n, steps, n')
    ensures |steps| >= 4 * |n.queue| + 3 ==> n'.queue == []
    ensures n.queue == [] ==> n'.queue == []
    ensures |steps| >= QueueWork(n) ==> n'.queue == []
    decreases |steps|
  {
    hide Healthy, Apply, Enabled;
    if steps != [] {
      ThreadStep(n, steps[0]);
      ThreadEmptiesQueue(Apply(n, steps[0]), steps[1..], n');
    }
  }
}
