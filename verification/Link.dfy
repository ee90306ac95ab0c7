/** One direction of a connection as a state machine: the sending half of one peer, the byte
    stream between, and the receiving half of the other. The handlers are those of `Peers`; the
    steps add what happens around them: bytes move in chunks of any size, and anything can fail
    at any time. */
module Links {
  import opened Hex
  import opened Framing
  import opened Peers

  /** `wire` holds the bytes under way. The last six fields record history: what was handed to
      `send`, what was put on and taken off the wire, what was queued as received, whether a
      write failed, and whether the receiver has been told to listen. */
  datatype Link = Link(
    src: PeerState,
    dst: PeerState,
    posted: seq<Message>,
    wire: seq<Byte>,
    sent: seq<Message>,
    put: seq<Byte>,
    taken: seq<Byte>,
    delivered: seq<Message>,
    writeFailed: bool,
    listening: bool)

  /** Both peers just constructed. */
  predicate Init(l: Link) {
    && l.src == Fresh(l.src.temp.header) && l.dst == Fresh(l.dst.temp.header)
    && l.posted == [] && l.wire == [] && l.sent == [] && l.put == [] && l.taken == [] && l.delivered == []
    && !l.writeFailed && !l.listening
  }

  // ----- Steps ----------------------------------------------------------------------------

  datatype Step =
    | Send(msg: Message)            // `send` posts its handler
    | RunSend                       // the oldest posted handler runs
    | Transmit(i: nat, k: nat)      // the connection accepts `k` bytes of write `i`
    | Written(i: nat)               // write `i` is complete, its handler runs
    | WriteFails(i: nat)            // write `i` fails, its handler runs
    | Receive(i: nat, k: nat)       // `k` bytes arrive for read `i`
    | Read(i: nat)                  // read `i` is complete, its handler runs
    | ReadFails(i: nat)             // read `i` fails, its handler runs
    | StartListening                // `listen`, called once on every connection
    | CloseSrc                      // the sender disconnects for another reason
    | CloseDst                      // the receiver does
    | Lose(k: nat)                  // a broken connection drops bytes that were under way

  predicate Enabled(l: Link, step: Step) {
    match step
    case Send(m) => WellFormed(m)
    case RunSend => l.posted != []
    case Transmit(i, k) => l.src.open && i < |l.src.writeOps| && 1 <= k <= |l.src.writeOps[i].rest|
    case Written(i) => i < |l.src.writeOps| && l.src.writeOps[i].rest == []
    case WriteFails(i) => i < |l.src.writeOps|
    case Receive(i, k) =>
      && l.dst.open && i < |l.dst.readOps| && 1 <= k <= |l.wire|
      && |l.dst.readOps[i].got| + k <= Wanted(l.dst.readOps[i])
    case Read(i) => i < |l.dst.readOps| && |l.dst.readOps[i].got| == Wanted(l.dst.readOps[i])
    case ReadFails(i) => i < |l.dst.readOps|
    case StartListening => !l.listening
    case CloseSrc => true
    case CloseDst => true
    case Lose(k) => !l.src.open && k <= |l.wire|
  }

  function Without<T>(ops: seq<T>, i: nat): seq<T>
    requires i < |ops|
  {
    ops[..i] + ops[i + 1..]
  }

  /** A write operation ends: it leaves the socket and its handler runs. */
  function EndWrite(p: PeerState, i: nat, ok: bool): PeerState
    requires i < |p.writeOps|
  {
    var p' := p.(writeOps := Without(p.writeOps, i));
    match p.writeOps[i]
    case WriteHeader(_) => OnHeaderWritten(p', ok)
    case WriteBody(_) => OnBodyWritten(p', ok)
  }

  function EndRead(p: PeerState, i: nat, ok: bool): (PeerState, seq<Message>)
    requires i < |p.readOps|
    requires ok ==> |p.readOps[i].got| == Wanted(p.readOps[i])
  {
    var p' := p.(readOps := Without(p.readOps, i));
    match p.readOps[i]
    case ReadHeader(got) => OnHeaderRead(p', ok, got)
    case ReadBody(_, got) => OnBodyRead(p', ok, got)
  }

  function Apply(l: Link, step: Step): Link
    requires Enabled(l, step)
  {
    match step
    case Send(m) => l.(posted := l.posted + [m], sent := l.sent + [m])
    case RunSend => l.(src := OnSend(l.src, l.posted[0]), posted := l.posted[1..])
    case Transmit(i, k) =>
      var op := l.src.writeOps[i];
      var chunk := op.rest[..k];
      l.(src := l.src.(writeOps := l.src.writeOps[i := op.(rest := op.rest[k..])]),
         wire := l.wire + chunk, put := l.put + chunk)
    case Written(i) => l.(src := EndWrite(l.src, i, true))
    case WriteFails(i) => l.(src := EndWrite(l.src, i, false), writeFailed := true)
    case Receive(i, k) =>
      var op := l.dst.readOps[i];
      var chunk := l.wire[..k];
      l.(dst := l.dst.(readOps := l.dst.readOps[i := op.(got := op.got + chunk)]),
         wire := l.wire[k..], taken := l.taken + chunk)
    case Read(i) =>
      var (dst, ms) := EndRead(l.dst, i, true);
      l.(dst := dst, delivered := l.delivered + ms)
    case ReadFails(i) =>
      var (dst, ms) := EndRead(l.dst, i, false);
      l.(dst := dst, delivered := l.delivered + ms)
    case StartListening => l.(dst := Listen(l.dst), listening := true)
    case CloseSrc => l.(src := Disconnect(l.src))
    case CloseDst => l.(dst := Disconnect(l.dst))
    case Lose(k) => l.(wire := l.wire[..|l.wire| - k])
  }

  /** The steps lead from `l` to `l'`, each enabled when it is taken. */
  predicate Leads(l: Link, steps: seq<Step>, l': Link)
    decreases |steps|
  {
    if steps == [] then l == l'
    else Enabled(l, steps[0]) && Leads(Apply(l, steps[0]), steps[1..], l')
  }

  // ----- The invariant of the sender ------------------------------------------------------

  /** How many messages have left the outgoing queue. */
  function Popped(l: Link): int {
    |l.sent| - |l.posted| - |l.src.out|
  }

  /** The bytes of the head of the queue that are not on the wire yet. */
  function Pending(p: PeerState): seq<Byte>
    requires |p.writeOps| == 1 && p.out != []
  {
    match p.writeOps[0]
    case WriteHeader(rest) => rest + p.out[0].body
    case WriteBody(rest) => rest
  }

  predicate IsSuffix(a: seq<Byte>, b: seq<Byte>) {
    |a| <= |b| && a == b[|b| - |a|..]
  }

  /** The write belongs to message `m`: it has some end of the header or of the body to go. */
  predicate WritesMessage(op: WriteOp, m: Message) {
    match op
    case WriteHeader(rest) => IsSuffix(rest, EncodeHeader(m.header))
    case WriteBody(rest) => m.body != [] && IsSuffix(rest, m.body)
  }

  /** While no write has failed the queue is non-empty exactly when one write, of its head, is
      outstanding; a failed write leaves its message at the head for good. */
  predicate WriteLoop(p: PeerState, failed: bool) {
    && !p.fault
    && (failed ==> p.out != [] && p.writeOps == [] && !p.open)
    && (!failed ==>
          && |p.writeOps| == (if p.out == [] then 0 else 1)
          && (p.out != [] ==> WritesMessage(p.writeOps[0], p.out[0])))
  }

  /** The messages sent are those that left the queue, those in it, and those posted. */
  predicate QueueInv(l: Link) {
    var n := Popped(l);
    && n >= 0
    && l.src.out == l.sent[n..n + |l.src.out|]
    && l.posted == l.sent[n + |l.src.out|..]
  }

  /** What was put on the wire, with what is pending, makes up whole frames. */
  predicate WireInv(src: PeerState, failed: bool, put: seq<Byte>, sent: seq<Message>, n: int)
    requires 0 <= n <= |sent| && (src.out != [] ==> n < |sent|) && WriteLoop(src, failed)
  {
    if src.out == [] then put == Frames(sent[..n])
    else if failed then put <= Frames(sent[..n + 1])
    else put + Pending(src) == Frames(sent[..n + 1])
  }

  predicate SenderInv(l: Link) {
    && AllWellFormed(l.sent)
    && QueueInv(l)
    && WriteLoop(l.src, l.writeFailed)
    && WireInv(l.src, l.writeFailed, l.put, l.sent, Popped(l))
  }

  // ----- The invariant of the receiver ----------------------------------------------------

  /** The read in progress agrees with the messages sent: `n` of them have been delivered. */
  predicate ReadLoop(l: Link, n: nat)
    requires n <= |l.sent|
  {
    if !l.listening then l.dst.readOps == [] && n == 0 && l.taken == [] && l.dst.temp.body == []
    else if l.dst.readOps == [] then !l.dst.open
    else if |l.dst.readOps| > 1 then false
    else
      match l.dst.readOps[0]
      case ReadHeader(got) =>
        && |got| <= HEADER_BYTES
        && l.taken == Frames(l.sent[..n]) + got
        && l.dst.temp.body == Stale(l.sent[..n])
      case ReadBody(want, got) =>
        && n < |l.sent|
        && l.dst.temp.header == l.sent[n].header
        && want == |l.sent[n].body| > 0
        && |got| <= want
        && l.taken == Frames(l.sent[..n]) + (EncodeHeader(l.sent[n].header) + got)
  }

  predicate ReceiverInv(l: Link) {
    var n := |l.delivered|;
    && !l.dst.fault
    && n <= |l.sent|
    && l.delivered == Received(l.sent[..n])
    && l.taken + l.wire <= l.put
    && (l.src.open ==> l.taken + l.wire == l.put)
    && ReadLoop(l, n)
  }

  predicate Inv(l: Link) {
    SenderInv(l) && ReceiverInv(l)
  }

  /** What is on the wire comes from the frames of what was sent. */
  lemma PutFromSent(l: Link)
    requires SenderInv(l)
    ensures l.put <= Frames(l.sent)
  {
    hide EncodeHeader, ReceiverInv;
    var n := Popped(l);
    FramesPrefix(l.sent, n);
    if l.src.out != [] {
      FramesPrefix(l.sent, n + 1);
    }
  }

  // ----- The steps keep the invariant -----------------------------------------------------

  /** The sender's invariant does not see the receiver, and the other way around. */
  lemma SenderFrame(l: Link, l': Link)
    requires SenderInv(l)
    requires l'.src == l.src && l'.posted == l.posted && l'.sent == l.sent && l'.put == l.put
    requires l'.writeFailed == l.writeFailed
    ensures SenderInv(l')
  {
    hide Frames, WriteLoop, Pending, AllWellFormed;
  }

  lemma ReceiverFrame(l: Link, l': Link)
    requires ReceiverInv(l)
    requires l'.dst == l.dst && l'.delivered == l.delivered && l'.sent == l.sent
    requires l'.taken == l.taken && l'.wire == l.wire && l'.put == l.put && l'.listening == l.listening
    requires l'.src.open ==> l.src.open
    ensures ReceiverInv(l')
  {
    hide Frames, Received, Stale, EncodeHeader;
  }

  lemma InitInv(l: Link)
    requires Init(l)
    ensures Inv(l)
  {
  }

  lemma SendKeepsSender(l: Link, m: Message)
    requires SenderInv(l) && WellFormed(m)
    ensures SenderInv(Apply(l, Send(m)))
  {
    hide Frames, EncodeHeader, Pending, WriteLoop, WellFormed;
    var l' := Apply(l, Send(m));
    var n := Popped(l);
    assert l'.sent[..n] == l.sent[..n];
    assert l.src.out != [] ==> l'.sent[..n + 1] == l.sent[..n + 1];
  }

  lemma SendKeepsReceiver(l: Link, m: Message)
    requires ReceiverInv(l) && WellFormed(m)
    ensures ReceiverInv(Apply(l, Send(m)))
  {
    hide Frames, Received, Stale, EncodeHeader, WellFormed;
    assert Apply(l, Send(m)).sent[..|l.delivered|] == l.sent[..|l.delivered|];
  }

  lemma SendKeepsInv(l: Link, m: Message)
    requires Inv(l) && WellFormed(m)
    ensures Inv(Apply(l, Send(m)))
  {
    hide SenderInv, ReceiverInv;
    SendKeepsSender(l, m);
    SendKeepsReceiver(l, m);
  }

  /** Beginning to write a head that is not begun, with `n` messages gone before it. */
  lemma StartKeepsInv(p: PeerState, put: seq<Byte>, sent: seq<Message>, n: nat)
    requires n < |sent| && AllWellFormed(sent) && put == Frames(sent[..n])
    requires p.out != [] && p.out[0] == sent[n] && p.writeOps == [] && !p.fault
    ensures WriteLoop(StartWriteHeader(p), false)
    ensures WireInv(StartWriteHeader(p), false, put, sent, n)
  {
    hide Frames, EncodeHeader;
    FramesSplit(sent, n);
  }

  lemma RunSendKeepsQueue(l: Link)
    requires SenderInv(l) && l.posted != []
    ensures QueueInv(Apply(l, RunSend)) && Popped(Apply(l, RunSend)) == Popped(l)
    ensures 0 <= Popped(l) < |l.sent| - |l.src.out| && l.posted[0] == l.sent[Popped(l) + |l.src.out|]
  {
    hide Frames, EncodeHeader, Pending, AllWellFormed, WriteLoop, WireInv;
    var n := Popped(l);
    assert l.posted[0] == l.sent[n + |l.src.out|];
    assert Apply(l, RunSend).src.out == l.sent[n..n + |l.src.out| + 1];
    assert Apply(l, RunSend).posted == l.sent[n + |l.src.out| + 1..];
  }

  lemma RunSendKeepsInv(l: Link)
    requires Inv(l) && l.posted != []
    ensures Inv(Apply(l, RunSend))
  {
    hide Frames, EncodeHeader, ReceiverInv, AllWellFormed, QueueInv;
    ReceiverFrame(l, Apply(l, RunSend));
    RunSendKeepsQueue(l);
    if l.src.out == [] {
      StartKeepsInv(l.src.(out := [l.posted[0]]), l.put, l.sent, Popped(l));
    }
  }

  /** Less of a write is still a write of the same message. */
  lemma WritesRest(op: WriteOp, m: Message, k: nat)
    requires WritesMessage(op, m) && k <= |op.rest|
    ensures WritesMessage(op.(rest := op.rest[k..]), m)
  {
    hide EncodeHeader;
  }

  lemma QueueFrame(l: Link, l': Link)
    requires QueueInv(l)
    requires l'.src.out == l.src.out && l'.posted == l.posted && l'.sent == l.sent
    ensures QueueInv(l') && Popped(l') == Popped(l)
  {
  }

  lemma TransmitKeepsSender(l: Link, k: nat)
    requires SenderInv(l) && Enabled(l, Transmit(0, k))
    ensures SenderInv(Apply(l, Transmit(0, k)))
  {
    hide Frames, EncodeHeader, AllWellFormed, IsSuffix, WritesMessage;
    var l' := Apply(l, Transmit(0, k));
    var op := l.src.writeOps[0];
    QueueFrame(l, l');
    WritesRest(op, l.src.out[0], k);
    assert op.rest == op.rest[..k] + op.rest[k..];
    assert Pending(l.src) == op.rest[..k] + Pending(l'.src);
    assert l'.put + Pending(l'.src) == l.put + Pending(l.src);
  }

  lemma TransmitKeepsReceiver(l: Link, k: nat)
    requires ReceiverInv(l) && Enabled(l, Transmit(0, k))
    ensures ReceiverInv(Apply(l, Transmit(0, k)))
  {
    hide Frames, Received, Stale, EncodeHeader;
    var l' := Apply(l, Transmit(0, k));
    assert l'.taken + l'.wire == l.taken + l.wire + l.src.writeOps[0].rest[..k];
  }

  lemma TransmitKeepsInv(l: Link, i: nat, k: nat)
    requires Inv(l) && Enabled(l, Transmit(i, k))
    ensures Inv(Apply(l, Transmit(i, k)))
  {
    hide Frames, EncodeHeader, ReceiverInv, QueueInv, WireInv, AllWellFormed;
    assert i == 0;
    TransmitKeepsSender(l, k);
    TransmitKeepsReceiver(l, k);
  }

  /** The header is on the wire, the body is next. */
  lemma HeaderWrittenKeepsInv(l: Link)
    requires SenderInv(l) && Enabled(l, Written(0))
    requires l.src.writeOps[0].WriteHeader? && l.src.out[0].body != []
    ensures SenderInv(Apply(l, Written(0)))
  {
    hide Frames, EncodeHeader, AllWellFormed;
    assert Without(l.src.writeOps, 0) == [];
    assert Pending(l.src) == l.src.out[0].body;
  }

  /** The whole message is on the wire; the next one, if any, is begun. */
  lemma MessageWrittenKeepsInv(l: Link)
    requires SenderInv(l) && Enabled(l, Written(0)) && l.src.out != []
    requires l.src.writeOps[0].WriteBody? || l.src.out[0].body == []
    ensures SenderInv(Apply(l, Written(0)))
  {
    hide Frames, EncodeHeader, AllWellFormed, QueueInv, Pending;
    var n := Popped(l);
    assert Without(l.src.writeOps, 0) == [];
    HeadLeaves(l);
    if |l.src.out| > 1 {
      StartKeepsInv(l.src.(out := l.src.out[1..], writeOps := []), l.put, l.sent, n + 1);
    }
  }

  /** With nothing pending the frame of the head is complete, and the head can go. */
  lemma HeadLeaves(l: Link)
    requires SenderInv(l) && Enabled(l, Written(0)) && l.src.out != []
    requires l.src.writeOps[0].WriteBody? || l.src.out[0].body == []
    ensures 0 <= Popped(l) < |l.sent|
    ensures l.put == Frames(l.sent[..Popped(l) + 1])
    ensures forall src: PeerState :: src.out == l.src.out[1..] ==> QueueInv(l.(src := src))
    ensures |l.src.out| > 1 ==> Popped(l) + 1 < |l.sent| && l.src.out[1] == l.sent[Popped(l) + 1]
  {
    hide Frames, EncodeHeader, AllWellFormed;
    var n := Popped(l);
    assert Pending(l.src) == [];
    assert l.put + [] == l.put;
    assert l.src.out[1..] == l.sent[n + 1..n + |l.src.out|];
  }

  lemma WrittenKeepsInv(l: Link, i: nat)
    requires Inv(l) && Enabled(l, Written(i))
    ensures Inv(Apply(l, Written(i)))
  {
    hide Frames, EncodeHeader, ReceiverInv, Pending, AllWellFormed;
    ReceiverFrame(l, Apply(l, Written(i)));
    if l.src.writeOps[0].WriteHeader? && l.src.out[0].body != [] {
      HeaderWrittenKeepsInv(l);
    } else {
      MessageWrittenKeepsInv(l);
    }
  }

  lemma WriteFailsKeepsInv(l: Link, i: nat)
    requires Inv(l) && Enabled(l, WriteFails(i))
    ensures Inv(Apply(l, WriteFails(i)))
  {
    hide Frames, EncodeHeader, ReceiverInv, AllWellFormed, IsSuffix;
    ReceiverFrame(l, Apply(l, WriteFails(i)));
    QueueFrame(l, Apply(l, WriteFails(i)));
    assert Without(l.src.writeOps, 0) == [];
  }

  lemma ReceiveKeepsInv(l: Link, i: nat, k: nat)
    requires Inv(l) && Enabled(l, Receive(i, k))
    ensures Inv(Apply(l, Receive(i, k)))
  {
    hide Frames, Received, Stale, EncodeHeader, SenderInv;
    SenderFrame(l, Apply(l, Receive(i, k)));
    var l' := Apply(l, Receive(i, k));
    var chunk := l.wire[..k];
    assert i == 0;
    assert l.wire == chunk + l'.wire;
    assert l'.taken + l'.wire == l.taken + l.wire;
    var n := |l.delivered|;
    match l.dst.readOps[0]
    case ReadHeader(got) =>
      assert l'.taken == Frames(l.sent[..n]) + (got + chunk);
    case ReadBody(want, got) =>
      var h := EncodeHeader(l.sent[n].header);
      assert l'.taken == Frames(l.sent[..n]) + (h + (got + chunk));
  }

  /** A complete header is the header of the next message sent. */
  lemma HeaderArrived(l: Link)
    requires Inv(l) && Enabled(l, Read(0)) && l.dst.readOps[0].ReadHeader?
    ensures |l.delivered| < |l.sent| && WellFormed(l.sent[|l.delivered|])
    ensures DecodeHeader(l.dst.readOps[0].got) == l.sent[|l.delivered|].header
    ensures l.dst.readOps[0].got == EncodeHeader(l.sent[|l.delivered|].header)
  {
    var n, got := |l.delivered|, l.dst.readOps[0].got;
    PutFromSent(l);
    NextFrame(l.sent, n, got);
    assert got == EncodeHeader(l.sent[n].header);
    DecodeEncodedHeader(l.sent[n].header);
  }

  /** A complete body is the body of the next message sent. */
  lemma BodyArrived(l: Link)
    requires Inv(l) && Enabled(l, Read(0)) && l.dst.readOps[0].ReadBody?
    ensures l.dst.readOps[0].got == l.sent[|l.delivered|].body
  {
    var n, got := |l.delivered|, l.dst.readOps[0].got;
    var seen := EncodeHeader(l.sent[n].header) + got;
    PutFromSent(l);
    NextFrame(l.sent, n, seen);
    assert seen == Frame(l.sent[n]);
    assert seen[HEADER_BYTES..] == got && Frame(l.sent[n])[HEADER_BYTES..] == l.sent[n].body;
  }

  /** Delivering message `n` extends what was received by one. */
  lemma DeliverNext(l: Link, n: nat)
    requires n < |l.sent| && l.delivered == Received(l.sent[..n])
    ensures Received(l.sent[..n + 1]) == l.delivered + [Message(l.sent[n].header, Stale(l.sent[..n + 1]))]
    ensures Frames(l.sent[..n + 1]) == Frames(l.sent[..n]) + Frame(l.sent[n])
    ensures Stale(l.sent[..n + 1]) == if l.sent[n].body != [] then l.sent[n].body else Stale(l.sent[..n])
  {
    hide EncodeHeader, Frame;
    assert l.sent[..n + 1][..n] == l.sent[..n];
  }

  lemma ReadKeepsInv(l: Link, i: nat)
    requires Inv(l) && Enabled(l, Read(i))
    ensures Inv(Apply(l, Read(i)))
  {
    hide Frames, Received, Stale, EncodeHeader, DecodeHeader, SenderInv;
    SenderFrame(l, Apply(l, Read(i)));
    var n := |l.delivered|;
    assert i == 0;
    assert Without(l.dst.readOps, 0) == [];
    match l.dst.readOps[0]
    case ReadHeader(got) =>
      HeaderArrived(l);
      DeliverNext(l, n);
      assert Frames(l.sent[..n]) + (EncodeHeader(l.sent[n].header) + []) == l.taken;
      if l.sent[n].body == [] {
        assert Frame(l.sent[n]) == got;
        assert Frames(l.sent[..n + 1]) + [] == l.taken;
      }
    case ReadBody(want, got) =>
      BodyArrived(l);
      DeliverNext(l, n);
      assert Frames(l.sent[..n + 1]) + [] == l.taken;
  }

  lemma ReadFailsKeepsInv(l: Link, i: nat)
    requires Inv(l) && Enabled(l, ReadFails(i))
    ensures Inv(Apply(l, ReadFails(i)))
  {
    hide Frames, Received, Stale, EncodeHeader, DecodeHeader, SenderInv;
    SenderFrame(l, Apply(l, ReadFails(i)));
    assert Without(l.dst.readOps, 0) == [];
    assert l.delivered + [] == l.delivered;
  }

  lemma ListenKeepsInv(l: Link)
    requires Inv(l) && !l.listening
    ensures Inv(Apply(l, StartListening))
  {
    hide EncodeHeader, SenderInv;
    SenderFrame(l, Apply(l, StartListening));
    assert l.sent[..0] == [];
  }

  lemma CloseKeepsInv(l: Link, step: Step)
    requires Inv(l) && (step.CloseSrc? || step.CloseDst?)
    ensures Inv(Apply(l, step))
  {
    hide Frames, Received, Stale, EncodeHeader, AllWellFormed, IsSuffix;
    if step.CloseSrc? {
      ReceiverFrame(l, Apply(l, step));
    } else {
      SenderFrame(l, Apply(l, step));
    }
  }

  lemma LoseKeepsInv(l: Link, k: nat)
    requires Inv(l) && Enabled(l, Lose(k))
    ensures Inv(Apply(l, Lose(k)))
  {
    hide Frames, Received, Stale, EncodeHeader, SenderInv;
    SenderFrame(l, Apply(l, Lose(k)));
    var l' := Apply(l, Lose(k));
    assert l'.taken + l'.wire <= l.taken + l.wire;
  }

  /** Every step keeps the invariant. */
  lemma StepKeepsInv(l: Link, step: Step)
    requires Inv(l) && Enabled(l, step)
    ensures Inv(Apply(l, step))
  {
    hide Inv, EndWrite, EndRead, WellFormed;
    match step
    case Send(m) => SendKeepsInv(l, m);
    case RunSend => RunSendKeepsInv(l);
    case Transmit(i, k) => TransmitKeepsInv(l, i, k);
    case Written(i) => WrittenKeepsInv(l, i);
    case WriteFails(i) => WriteFailsKeepsInv(l, i);
    case Receive(i, k) => ReceiveKeepsInv(l, i, k);
    case Read(i) => ReadKeepsInv(l, i);
    case ReadFails(i) => ReadFailsKeepsInv(l, i);
    case StartListening => ListenKeepsInv(l);
    case CloseSrc => CloseKeepsInv(l, step);
    case CloseDst => CloseKeepsInv(l, step);
    case Lose(k) => LoseKeepsInv(l, k);
  }

  lemma {:induction false} RunKeepsInv(l: Link, steps: seq<Step>, l': Link)
    requires Inv(l) && Leads(l, steps, l')
    ensures Inv(l')
    decreases |steps|
  {
    if steps != [] {
      StepKeepsInv(l, steps[0]);
      RunKeepsInv(Apply(l, steps[0]), steps[1..], l');
    }
  }
}
