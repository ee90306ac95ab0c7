/** What holds over every run of a connection: framing, the write loop, and draining. */
module LinkProperties {
  import opened Framing
  import opened Peers
  import opened Links

  // ----- Safety over every run ------------------------------------------------------------

  ghost predicate Reachable(l: Link) {
    exists init, steps :: Init(init) && Leads(init, steps, l)
  }

  lemma ReachableInv(l: Link)
    requires Reachable(l)
    ensures Inv(l)
  {
    hide Inv;
    var init, steps :| Init(init) && Leads(init, steps, l);
    InitInv(init);
    RunKeepsInv(init, steps, l);
  }

  /** Whatever was sent, however it was cut into chunks, and whatever failed: the messages queued
      as received are what the receiver makes of the first ones sent, in order; and no handler
      ever touched the front of an empty queue. */
  lemma DeliveredIsReceivedPrefix(l: Link)
    requires Reachable(l)
    ensures |l.delivered| <= |l.sent|
    ensures l.delivered == Received(l.sent[..|l.delivered|])
    ensures !l.src.fault && !l.dst.fault
  {
    ReachableInv(l);
  }

  /** In terms of the single message: its header and the announced part of its body arrive. */
  lemma DeliveredMessage(l: Link, i: nat)
    requires Reachable(l) && i < |l.delivered|
    ensures i < |l.sent|
    ensures l.delivered[i].header == l.sent[i].header
    ensures l.sent[i].header.size <= |l.delivered[i].body|
    ensures l.delivered[i].body[..l.sent[i].header.size] == l.sent[i].body
  {
    ReachableInv(l);
    ReceivedPrefix(l.sent[..|l.delivered|], i);
  }

  /** The messages arrive exactly as sent if and only if none of them has an empty body after a
      message with a body. */
  lemma DeliveredExactlyIff(l: Link)
    requires Reachable(l)
    ensures |l.delivered| <= |l.sent|
    ensures l.delivered <= l.sent <==> NeverEmptyAfterBody(l.sent[..|l.delivered|])
  {
    ReachableInv(l);
    ReceivedExactlyIff(l.sent[..|l.delivered|]);
  }

  // ----- The write loop -------------------------------------------------------------------

  /** At most one write is outstanding. While no write has failed there is one exactly when
      messages are queued, and it is writing the oldest. */
  lemma OneWriteOfTheHead(l: Link)
    requires Reachable(l)
    ensures |l.src.writeOps| <= 1
    ensures !l.writeFailed ==> (l.src.out != [] <==> |l.src.writeOps| == 1)
    ensures |l.src.writeOps| == 1 ==> l.src.out != [] && WritesMessage(l.src.writeOps[0], l.src.out[0])
  {
    ReachableInv(l);
  }

  lemma FailedStep(l: Link, step: Step)
    requires Inv(l) && l.writeFailed && Enabled(l, step)
    ensures var l' := Apply(l, step);
            l'.writeFailed && l'.put == l.put && l.src.out <= l'.src.out
  {
    hide Frames, Received, Stale, EncodeHeader, EndRead;
  }

  /** After a failed write nothing more is put on the wire, whatever is sent; the message that
      failed stays at the head of the queue and all later ones pile up behind it. */
  lemma {:induction false} FailedWriteIsFinal(l: Link, steps: seq<Step>, l': Link)
    requires Inv(l) && l.writeFailed && Leads(l, steps, l')
    ensures l'.writeFailed && l'.put == l.put
    ensures l.src.out != [] && l.src.out <= l'.src.out && l'.src.writeOps == []
    decreases |steps|
  {
    hide Frames, Received, Stale, EncodeHeader, Apply, Enabled;
    if steps != [] {
      FailedStep(l, steps[0]);
      StepKeepsInv(l, steps[0]);
      FailedWriteIsFinal(Apply(l, steps[0]), steps[1..], l');
    }
  }

  // ----- Draining -------------------------------------------------------------------------

  /** Steps other than new sends, failures and disconnections. */
  predicate Quiet(step: Step) {
    || step.RunSend? || step.Transmit? || step.Written?
    || step.StartListening? || step.Receive? || step.Read?
  }

  /** Both sockets are open, no write has failed, and the receiver, once told to, is reading. */
  predicate Healthy(l: Link) {
    && Inv(l) && l.src.open && l.dst.open && !l.writeFailed
    && |l.dst.readOps| == if l.listening then 1 else 0
  }

  /** A connection whose sockets are both open is healthy. */
  lemma OpenIsHealthy(l: Link)
    requires Reachable(l) && l.src.open && l.dst.open
    ensures Healthy(l)
  {
    ReachableInv(l);
    OpenInvIsHealthy(l);
  }

  lemma OpenInvIsHealthy(l: Link)
    requires Inv(l) && l.src.open && l.dst.open
    ensures Healthy(l)
  {
  }

  /** A byte that still has to be written costs three, a byte under way two, a byte of an
      incomplete read one; every completed write costs one, and so does the call of `listen`. */
  function Cost(m: Message): nat {
    3 * (HEADER_BYTES + |m.body|) + 2
  }

  function Costs(ms: seq<Message>): nat {
    if ms == [] then 0 else Cost(ms[0]) + Costs(ms[1..])
  }

  function HeadCost(p: PeerState): nat {
    if p.writeOps == [] || p.out == [] then 0
    else
      match p.writeOps[0]
      case WriteHeader(rest) => 3 * (|rest| + |p.out[0].body|) + 2
      case WriteBody(rest) => 3 * |rest| + 1
  }

  function QueueCost(p: PeerState): nat {
    HeadCost(p) + if p.out == [] then 0 else Costs(p.out[1..])
  }

  function Measure(l: Link): nat {
    Costs(l.posted) + |l.posted| + QueueCost(l.src) + 2 * |l.wire|
    + (if l.dst.readOps == [] then 0 else |l.dst.readOps[0].got|)
    + if l.listening then 0 else 1
  }

  lemma {:induction false} CostsAppend(ms: seq<Message>, m: Message)
    ensures Costs(ms + [m]) == Costs(ms) + Cost(m)
    decreases |ms|
  {
    if ms == [] {
      assert ms + [m] == [m];
    } else {
      assert (ms + [m])[1..] == ms[1..] + [m];
      CostsAppend(ms[1..], m);
    }
  }

  lemma RunSendCosts(l: Link)
    requires Healthy(l) && l.posted != []
    ensures Measure(Apply(l, RunSend)) == Measure(l) - 1
  {
    hide Frames, Received, Stale, ReceiverInv;
    var m := l.posted[0];
    assert WellFormed(m) by {
      assert m == l.sent[Popped(l) + |l.src.out|];
    }
    if l.src.out != [] {
      assert (l.src.out + [m])[1..] == l.src.out[1..] + [m];
      CostsAppend(l.src.out[1..], m);
    }
  }

  lemma WrittenCosts(l: Link, i: nat)
    requires Healthy(l) && Enabled(l, Written(i))
    ensures Measure(Apply(l, Written(i))) < Measure(l)
  {
    hide Frames, Received, Stale, ReceiverInv;
    assert Without(l.src.writeOps, 0) == [];
    var out := l.src.out;
    if |out| > 1 {
      assert out[1..] == [out[1]] + out[1..][1..];
      assert WellFormed(out[1]) by {
        assert out[1] == l.sent[Popped(l) + 1];
      }
    }
  }

  lemma MoveCosts(l: Link, step: Step)
    requires Healthy(l) && Enabled(l, step) && (step.Transmit? || step.Receive?)
    ensures Measure(Apply(l, step)) < Measure(l)
    ensures |Apply(l, step).dst.readOps| == |l.dst.readOps|
  {
    hide Frames, Received, Stale, EncodeHeader, ReceiverInv, Costs;
  }

  lemma ReadCosts(l: Link, i: nat)
    requires Healthy(l) && Enabled(l, Read(i))
    ensures Measure(Apply(l, Read(i))) < Measure(l)
    ensures |Apply(l, Read(i)).dst.readOps| == 1 && Apply(l, Read(i)).dst.open
  {
    hide Frames, Received, Stale, EncodeHeader, DecodeHeader, SenderInv, Costs;
    assert Without(l.dst.readOps, 0) == [];
  }

  lemma ListenCosts(l: Link)
    requires Healthy(l) && Enabled(l, StartListening)
    ensures Measure(Apply(l, StartListening)) == Measure(l) - 1
    ensures |Apply(l, StartListening).dst.readOps| == 1
  {
    hide Frames, Received, Stale, EncodeHeader, SenderInv, Costs;
  }

  /** Every quiet step makes the measure smaller and leaves the connection healthy. */
  lemma QuietStep(l: Link, step: Step)
    requires Healthy(l) && Quiet(step) && Enabled(l, step)
    ensures Healthy(Apply(l, step)) && Measure(Apply(l, step)) < Measure(l)
    ensures Apply(l, step).sent == l.sent
  {
    hide Inv, Measure, SenderInv, ReceiverInv;
    StepKeepsInv(l, step);
    match step
    case RunSend => RunSendCosts(l);
    case Written(i) => WrittenCosts(l, i);
    case StartListening => ListenCosts(l);
    case Transmit(i, k) => MoveCosts(l, step);
    case Receive(i, k) => MoveCosts(l, step);
    case Read(i) => ReadCosts(l, i);
  }

  predicate AllQuiet(steps: seq<Step>) {
    forall i :: 0 <= i < |steps| ==> Quiet(steps[i])
  }

  predicate AllDelivered(l: Link) {
    && l.posted == [] && l.src.out == [] && l.wire == []
    && l.put == l.taken == Frames(l.sent)
    && l.delivered == Received(l.sent)
  }

  /** A quiet run is no longer than the measure it starts with. */
  lemma {:induction false} QuietRunBounded(l: Link, steps: seq<Step>, l': Link)
    requires Healthy(l) && AllQuiet(steps) && Leads(l, steps, l')
    ensures Healthy(l') && l'.sent == l.sent
    ensures |steps| + Measure(l') <= Measure(l)
    decreases |steps|
  {
    hide Healthy, Measure, Apply, Enabled, Quiet;
    if steps != [] {
      QuietStep(l, steps[0]);
      QuietRunBounded(Apply(l, steps[0]), steps[1..], l');
    }
  }

  ghost predicate Quiescent(l: Link) {
    forall step :: Quiet(step) ==> !Enabled(l, step)
  }

  /** With nothing to write, everything sent is on the wire. */
  lemma QuiescentHasWritten(l: Link)
    requires Healthy(l) && Quiescent(l)
    ensures l.posted == [] && l.src.out == [] && l.put == Frames(l.sent)
  {
    hide Frames, EncodeHeader, ReceiverInv;
    assert !Enabled(l, RunSend) && !Enabled(l, Written(0)) && !Enabled(l, Transmit(0, 1));
    assert l.sent[..|l.sent|] == l.sent;
  }

  /** With nothing to read, nothing is under way, and a header read waits for its first byte. */
  lemma QuiescentHasRead(l: Link)
    requires Healthy(l) && Quiescent(l)
    requires l.put == Frames(l.sent)
    ensures l.wire == [] && l.taken == l.put && |l.delivered| == |l.sent|
  {
    hide Received, Stale, Frames, EncodeHeader, QueueInv, WriteLoop, WireInv;
    assert !Enabled(l, StartListening) && !Enabled(l, Read(0)) && !Enabled(l, Receive(0, 1));
    assert l.taken + [] == l.put;
    var n := |l.delivered|;
    if n < |l.sent| {
      FramesSplit(l.sent, n);
    }
  }

  /** A healthy connection on which no quiet step is possible has delivered everything. */
  lemma QuiescentHasDelivered(l: Link)
    requires Healthy(l) && Quiescent(l)
    ensures AllDelivered(l)
  {
    hide Received, Frames, Quiescent, SenderInv, ReadLoop;
    QuiescentHasWritten(l);
    QuiescentHasRead(l);
    assert l.sent[..|l.sent|] == l.sent;
  }

  /** From a healthy connection every maximal quiet run is finite and ends with everything
      delivered and the outgoing queue empty. */
  lemma QuietRunDrains(l: Link, steps: seq<Step>, l': Link)
    requires Healthy(l) && AllQuiet(steps) && Leads(l, steps, l')
    ensures |steps| <= Measure(l)
    ensures Quiescent(l') ==> AllDelivered(l') && l'.delivered == Received(l.sent)
  {
    hide Healthy, Measure;
    QuietRunBounded(l, steps, l');
    if Quiescent(l') {
      QuiescentHasDelivered(l');
    }
  }

  /** And there is such a run. */
  lemma {:induction false} CanDrain(l: Link) returns (steps: seq<Step>, l': Link)
    requires Healthy(l)
    ensures AllQuiet(steps) && Leads(l, steps, l') && AllDelivered(l') && l'.sent == l.sent
    decreases Measure(l)
  {
    hide Healthy, Measure, Apply, Enabled, Quiet, AllDelivered;
    if Quiescent(l) {
      QuiescentHasDelivered(l);
      steps, l' := [], l;
    } else {
      var step :| Quiet(step) && Enabled(l, step);
      QuietStep(l, step);
      var rest;
      rest, l' := CanDrain(Apply(l, step));
      steps := [step] + rest;
    }
  }

  // ----- A body that was not sent ---------------------------------------------------------

  lemma ReceivedPair(a: Message, b: Message)
    requires a.body != [] && b.body == []
    ensures Received([a, b]) == [a, Message(b.header, a.body)]
  {
    assert [a, b][..1] == [a] && [a][..0] == [];
  }

  lemma TwoSends(l: Link, a: Message, b: Message) returns (l': Link)
    requires Init(l) && WellFormed(a) && WellFormed(b)
    ensures forall steps, l'' :: Leads(l', steps, l'') ==> Leads(l, [Send(a), Send(b)] + steps, l'')
    ensures Healthy(l') && l'.sent == [a, b]
  {
    hide Inv, WellFormed;
    var l1 := Apply(l, Send(a));
    l' := Apply(l1, Send(b));
    InitInv(l);
    SendKeepsInv(l, a);
    SendKeepsInv(l1, b);
    forall steps, l'' | Leads(l', steps, l'') ensures Leads(l, [Send(a), Send(b)] + steps, l'') {
      var all := [Send(a), Send(b)] + steps;
      assert all[1..] == [Send(b)] + steps && all[1..][1..] == steps;
    }
  }

  /** Whatever the first two messages on a connection are, if the first has a body and the second
      has none there is a run that delivers the second one with the body of the first. */
  lemma StaleBodyDelivered(l: Link, a: Message, b: Message) returns (steps: seq<Step>, l': Link)
    requires Init(l) && WellFormed(a) && WellFormed(b)
    requires a.body != [] && b.body == []
    ensures Leads(l, steps, l')
    ensures l'.sent == [a, b] && l'.delivered == [a, Message(b.header, a.body)]
  {
    hide Leads, Healthy, Init, WellFormed, Received;
    var l2 := TwoSends(l, a, b);
    steps, l' := CanDrain(l2);
    steps := [Send(a), Send(b)] + steps;
    ReceivedPair(a, b);
  }
}
