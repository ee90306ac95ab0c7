/** One end of a connection. `PeerState` and the functions on it say what each completion handler
    does; the class does it in place. */
module Peers {
  import opened Hex
  import opened Framing
  import opened TsQueues

  // ----- Outstanding operations of the socket ---------------------------------------------

  /** An `async_write`, with the bytes that it has not handed to the connection yet. */
  datatype WriteOp = WriteHeader(rest: seq<Byte>) | WriteBody(rest: seq<Byte>)

  /** An `async_read`, with the bytes that it has got so far. */
  datatype ReadOp = ReadHeader(got: seq<Byte>) | ReadBody(want: nat, got: seq<Byte>)

  function Wanted(op: ReadOp): nat {
    match op
    case ReadHeader(_) => HEADER_BYTES
    case ReadBody(want, _) => want
  }

  // ----- The handlers as functions --------------------------------------------------------

  /** `fault` records that `front` or `popFront` was called on an empty queue. */
  datatype PeerState = PeerState(
    open: bool,
    out: seq<Message>,
    writeOps: seq<WriteOp>,
    temp: Message,
    readOps: seq<ReadOp>,
    fault: bool)

  /** A peer just constructed on a connected socket; the temporary header is not initialised. */
  function Fresh(header: Header): PeerState {
    PeerState(true, [], [], Message(header, []), [], false)
  }

  function Disconnect(p: PeerState): PeerState {
    p.(open := false)
  }

  function StartWriteHeader(p: PeerState): PeerState {
    if p.out == [] then p.(fault := true)
    else p.(writeOps := p.writeOps + [WriteHeader(EncodeHeader(p.out[0].header))])
  }

  function StartWriteBody(p: PeerState): PeerState {
    if p.out == [] then p.(fault := true)
    else p.(writeOps := p.writeOps + [WriteBody(p.out[0].body)])
  }

  /** The handler that `send` posts. */
  function OnSend(p: PeerState, m: Message): PeerState {
    var p' := p.(out := p.out + [m]);
    if p.out == [] then StartWriteHeader(p') else p'
  }

  /** The end of a message: it leaves the queue, and the next one is begun. */
  function FinishMessage(p: PeerState): PeerState {
    if p.out == [] then p.(fault := true)
    else
      var p' := p.(out := p.out[1..]);
      if p'.out != [] then StartWriteHeader(p') else p'
  }

  function OnHeaderWritten(p: PeerState, ok: bool): PeerState {
    if !ok then Disconnect(p)
    else if p.out == [] then p.(fault := true)
    else if p.out[0].body != [] then StartWriteBody(p)
    else FinishMessage(p)
  }

  function OnBodyWritten(p: PeerState, ok: bool): PeerState {
    if !ok then Disconnect(p) else FinishMessage(p)
  }

  function StartReadHeader(p: PeerState): PeerState {
    p.(readOps := p.readOps + [ReadHeader([])])
  }

  function StartReadBody(p: PeerState): PeerState {
    p.(readOps := p.readOps + [ReadBody(|p.temp.body|, [])])
  }

  function Listen(p: PeerState): PeerState {
    if p.open then StartReadHeader(p) else p
  }

  /** `std::vector::resize`: what fits is kept, new elements are zero. */
  function Resize(bytes: seq<Byte>, n: nat): (r: seq<Byte>)
    ensures |r| == n
    ensures forall i :: 0 <= i < n ==> r[i] == if i < |bytes| then bytes[i] else 0
  {
    if n <= |bytes| then bytes[..n] else bytes + seq(n - |bytes|, _ => 0)
  }

  /** The message that a completed header read delivers right away, if any. */
  function OnHeaderRead(p: PeerState, ok: bool, image: seq<Byte>): (PeerState, seq<Message>)
    requires ok ==> |image| == HEADER_BYTES
  {
    if !ok then (Disconnect(p), [])
    else
      var h := DecodeHeader(image);
      if h.size > 0 then (StartReadBody(p.(temp := Message(h, Resize(p.temp.body, h.size)))), [])
      else
        var p' := p.(temp := Message(h, p.temp.body));
        (StartReadHeader(p'), [p'.temp])
  }

  function OnBodyRead(p: PeerState, ok: bool, bytes: seq<Byte>): (PeerState, seq<Message>) {
    if !ok then (Disconnect(p), [])
    else
      var p' := p.(temp := p.temp.(body := bytes));
      (StartReadHeader(p'), [p'.temp])
  }

  // ----- The class ------------------------------------------------------------------------

  /** A received message and the peer it came from. */
  datatype Owned = Owned(peer: nat, msg: Message)

  function Own(peer: nat, ms: seq<Message>): (r: seq<Owned>)
    ensures |r| == |ms|
    ensures forall i :: 0 <= i < |ms| ==> r[i] == Owned(peer, ms[i])
  {
    seq(|ms|, i requires 0 <= i < |ms| => Owned(peer, ms[i]))
  }

  class Peer {
    const id: nat
    var isOpen: bool
    const messagesOut: TsQueue<Message>
    const messagesIn: TsQueue<Owned>
    var msgTemporaryIn: Message
    var writeOps: seq<WriteOp>
    var readOps: seq<ReadOp>

    /** A connected socket, an empty outgoing queue and the queue shared by all peers. */
    constructor (id: nat, messagesIn: TsQueue<Owned>, header: Header)
      ensures fresh(messagesOut) && this.messagesIn == messagesIn && this.id == id
      ensures View() == Fresh(header)
    {
      this.id := id;
      this.messagesIn := messagesIn;
      messagesOut := new TsQueue<Message>();
      isOpen := true;
      msgTemporaryIn := Message(header, []);
      writeOps := [];
      readOps := [];
    }

    ghost function View(): PeerState
      reads this, messagesOut
    {
      PeerState(isOpen, messagesOut.deqQueue, writeOps, msgTemporaryIn, readOps, false)
    }

    method WriteHeaderOp()
      requires messagesOut.deqQueue != []
      modifies this`writeOps
      ensures View() == StartWriteHeader(old(View()))
    {
      var front := messagesOut.Front();
      writeOps := writeOps + [WriteHeader(EncodeHeader(front.header))];
    }

    method WriteBodyOp()
      requires messagesOut.deqQueue != []
      modifies this`writeOps
      ensures View() == StartWriteBody(old(View()))
    {
      var front := messagesOut.Front();
      writeOps := writeOps + [WriteBody(front.body)];
    }

    method Close()
      modifies this`isOpen
      ensures View() == Disconnect(old(View()))
    {
      if isOpen {
        isOpen := false;
      }
    }

    /** The handler posted by `send`. */
    method HandleSend(msg: Message)
      modifies this`writeOps, messagesOut
      ensures View() == OnSend(old(View()), msg)
    {
      var empty := messagesOut.Empty();
      var writingMessage := !empty;
      messagesOut.PushBack(msg);
      if !writingMessage {
        WriteHeaderOp();
      }
    }

    /** The handler of `writeHeader`; the finished operation has left `writeOps`. */
    method HandleHeaderWritten(ok: bool)
      requires ok ==> messagesOut.deqQueue != []
      modifies this`writeOps, this`isOpen, messagesOut
      ensures View() == OnHeaderWritten(old(View()), ok)
    {
      if ok {
        var front := messagesOut.Front();
        if |front.body| > 0 {
          WriteBodyOp();
        } else {
          var done := messagesOut.PopFront();
          var empty := messagesOut.Empty();
          if !empty {
            WriteHeaderOp();
          }
        }
      } else {
        Close();
      }
    }

    /** The handler of `writeBody`. */
    method HandleBodyWritten(ok: bool)
      requires ok ==> messagesOut.deqQueue != []
      modifies this`writeOps, this`isOpen, messagesOut
      ensures View() == OnBodyWritten(old(View()), ok)
    {
      if ok {
        var done := messagesOut.PopFront();
        var empty := messagesOut.Empty();
        if !empty {
          WriteHeaderOp();
        }
      } else {
        Close();
      }
    }

    method ReadHeaderOp()
      modifies this`readOps
      ensures View() == StartReadHeader(old(View()))
    {
      readOps := readOps + [ReadHeader([])];
    }

    method ReadBodyOp()
      modifies this`readOps
      ensures View() == StartReadBody(old(View()))
    {
      readOps := readOps + [ReadBody(|msgTemporaryIn.body|, [])];
    }

    method StartListening()
      modifies this`readOps
      ensures View() == Listen(old(View()))
      ensures readOps == if old(isOpen) then old(readOps) + [ReadHeader([])] else old(readOps)
    {
      if isOpen {
        ReadHeaderOp();
      }
    }

    method AddToIncomingMessageQueue()
      modifies this`readOps, messagesIn
      ensures View() == StartReadHeader(old(View()))
      ensures messagesIn.deqQueue == old(messagesIn.deqQueue) + [Owned(id, old(msgTemporaryIn))]
      ensures messagesOut.deqQueue == old(messagesOut.deqQueue)
    {
      messagesIn.PushBack(Owned(id, msgTemporaryIn));
      ReadHeaderOp();
    }

    /** The handler of `readHeader`; `image` is what was read into the temporary header. */
    method HandleHeaderRead(ok: bool, image: seq<Byte>)
      requires ok ==> |image| == HEADER_BYTES
      modifies this, messagesIn
      ensures View() == OnHeaderRead(old(View()), ok, image).0
      ensures messagesIn.deqQueue == old(messagesIn.deqQueue) + Own(id, OnHeaderRead(old(View()), ok, image).1)
    {
      if ok {
        msgTemporaryIn := Message(DecodeHeader(image), msgTemporaryIn.body);
        if msgTemporaryIn.header.size > 0 {
          msgTemporaryIn := msgTemporaryIn.(body := Resize(msgTemporaryIn.body, msgTemporaryIn.header.size));
          ReadBodyOp();
        } else {
          AddToIncomingMessageQueue();
        }
      } else {
        Close();
      }
    }

    /** The handler of `readBody`; `bytes` is what was read into the temporary body. */
    method HandleBodyRead(ok: bool, bytes: seq<Byte>)
      modifies this, messagesIn
      ensures View() == OnBodyRead(old(View()), ok, bytes).0
      ensures messagesIn.deqQueue == old(messagesIn.deqQueue) + Own(id, OnBodyRead(old(View()), ok, bytes).1)
    {
      if ok {
        msgTemporaryIn := msgTemporaryIn.(body := bytes);
        AddToIncomingMessageQueue();
      } else {
        Close();
      }
    }
  }
}
