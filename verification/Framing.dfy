/** Messages as bytes on a connection: the memory image of the header, then the body. */
module Framing {
  import opened Arith
  import opened Hex

  /** `sizeof(NetMessageHeader)` on a 64-bit machine: one byte, sixteen characters, seven bytes
      of padding, an eight-byte size. */
  const HEADER_BYTES := 32

  const SIZE_LIMIT := 0x1_0000000000000000

  datatype Header = Header(magic: Byte, command: seq<Byte>, padding: seq<Byte>, size: nat)

  datatype Message = Message(header: Header, body: seq<Byte>)

  predicate HeaderFits(h: Header) {
    |h.command| == 16 && |h.padding| == 7 && h.size < SIZE_LIMIT
  }

  /** What the senders promise: the header tells the size of the body. */
  predicate WellFormed(m: Message) {
    HeaderFits(m.header) && m.header.size == |m.body|
  }

  predicate AllWellFormed(ms: seq<Message>) {
    forall i :: 0 <= i < |ms| ==> WellFormed(ms[i])
  }

  // ----- The header -----------------------------------------------------------------------

  function LittleEndian(n: nat, k: nat): (bytes: seq<Byte>)
    ensures |bytes| == k
  {
    if k == 0 then [] else [n % 256] + LittleEndian(n / 256, k - 1)
  }

  function FromLittleEndian(bytes: seq<Byte>): nat {
    if bytes == [] then 0 else bytes[0] + 256 * FromLittleEndian(bytes[1..])
  }

  lemma {:induction false} ReadLittleEndian(n: nat, k: nat)
    requires n < Pow256(k)
    ensures FromLittleEndian(LittleEndian(n, k)) == n
    decreases k
  {
    if k > 0 {
      ReadLittleEndian(n / 256, k - 1);
      assert LittleEndian(n, k)[1..] == LittleEndian(n / 256, k - 1);
    }
  }

  lemma {:induction false} WriteLittleEndian(bytes: seq<Byte>)
    ensures FromLittleEndian(bytes) < Pow256(|bytes|)
    ensures LittleEndian(FromLittleEndian(bytes), |bytes|) == bytes
    decreases |bytes|
  {
    if bytes != [] {
      var n := FromLittleEndian(bytes[1..]);
      WriteLittleEndian(bytes[1..]);
      DivisionUnique(FromLittleEndian(bytes), 256, n, bytes[0]);
      assert bytes == [bytes[0]] + bytes[1..];
    }
  }

  function EncodeHeader(h: Header): (bytes: seq<Byte>)
    ensures HeaderFits(h) ==> |bytes| == HEADER_BYTES
  {
    [h.magic] + h.command + h.padding + LittleEndian(h.size, 8)
  }

  function DecodeHeader(bytes: seq<Byte>): Header
    requires |bytes| == HEADER_BYTES
  {
    Header(bytes[0], bytes[1..17], bytes[17..24], FromLittleEndian(bytes[24..]))
  }

  /** The memory image and the header determine each other. */
  lemma DecodeEncodedHeader(h: Header)
    requires HeaderFits(h)
    ensures DecodeHeader(EncodeHeader(h)) == h
  {
    assert Pow256(8) == SIZE_LIMIT;
    ReadLittleEndian(h.size, 8);
    var bytes := EncodeHeader(h);
    assert bytes[1..17] == h.command && bytes[17..24] == h.padding && bytes[24..] == LittleEndian(h.size, 8);
  }

  lemma EncodeDecodedHeader(bytes: seq<Byte>)
    requires |bytes| == HEADER_BYTES
    ensures HeaderFits(DecodeHeader(bytes)) && EncodeHeader(DecodeHeader(bytes)) == bytes
  {
    assert Pow256(8) == SIZE_LIMIT;
    WriteLittleEndian(bytes[24..]);
    assert bytes == [bytes[0]] + bytes[1..17] + bytes[17..24] + bytes[24..];
  }

  lemma {:induction false} LittleEndianAt(n: nat, k: nat, i: nat)
    requires i < k
    ensures LittleEndian(n, k)[i] == n / Pow256(i) % 256
    decreases k
  {
    if i > 0 {
      LittleEndianAt(n / 256, k - 1, i - 1);
      DivideTwice(n, Pow256(i - 1));
    }
  }

  lemma DivideTwice(n: nat, m: nat)
    requires m > 0
    ensures n / 256 / m == n / (256 * m)
  {
    var q, r := n / 256 / m, n / 256 % m;
    assert n / 256 == m * q + r;
    assert n == 256 * (m * q + r) + n % 256;
    assert 256 * (m * q) == 256 * m * q;
    DivisionUnique(n, 256 * m, q, 256 * r + n % 256);
  }

  /** Where the fields of a header lie in memory, and that its size is little-endian. */
  lemma HeaderLayout(h: Header, i: nat)
    requires HeaderFits(h) && i < 8
    ensures var image := EncodeHeader(h);
            && image[0] == h.magic && image[1..17] == h.command && image[17..24] == h.padding
            && image[24 + i] == h.size / Pow256(i) % 256
  {
    LittleEndianAt(h.size, 8, i);
  }

  // ----- Frames ---------------------------------------------------------------------------

  function Frame(m: Message): seq<Byte> {
    EncodeHeader(m.header) + m.body
  }

  /** The byte stream of a list of messages. */
  function Frames(ms: seq<Message>): seq<Byte> {
    if ms == [] then [] else Frames(ms[..|ms| - 1]) + Frame(ms[|ms| - 1])
  }

  /** The frame of message `n` starts where the frames before it end. */
  lemma {:induction false} FramesSplit(ms: seq<Message>, n: nat)
    requires n < |ms|
    ensures Frames(ms[..n]) + Frame(ms[n]) == Frames(ms[..n + 1])
    ensures Frames(ms[..n + 1]) <= Frames(ms)
    decreases |ms|
  {
    assert ms[..n + 1][..n] == ms[..n];
    if n + 1 == |ms| {
      assert ms[..n + 1] == ms;
    } else {
      var front := ms[..|ms| - 1];
      FramesSplit(front, n);
      assert front[..n + 1] == ms[..n + 1];
    }
  }

  lemma {:induction false} FramesPrefix(ms: seq<Message>, n: nat)
    requires n <= |ms|
    ensures Frames(ms[..n]) <= Frames(ms)
    decreases |ms| - n
  {
    if n == |ms| {
      assert ms[..n] == ms;
    } else {
      FramesSplit(ms, n);
      FramesPrefix(ms, n + 1);
    }
  }

  /** If more than the frames of the first `n` messages was seen, there is a message `n`, and
      what was seen next comes from its frame as far as that reaches. */
  lemma NextFrame(ms: seq<Message>, n: nat, seen: seq<Byte>)
    requires n <= |ms| && seen != []
    requires Frames(ms[..n]) + seen <= Frames(ms)
    ensures n < |ms|
    ensures |seen| <= |Frame(ms[n])| ==> seen == Frame(ms[n])[..|seen|]
  {
    hide Frames, Frame;
    var start := |Frames(ms[..n])|;
    assert ms[..|ms|] == ms;
    if n < |ms| {
      FramesSplit(ms, n);
      var all := Frames(ms);
      assert seen == all[start..start + |seen|];
      assert Frame(ms[n]) == all[start..start + |Frame(ms[n])|];
    }
  }

  // ----- What is received -----------------------------------------------------------------

  /** The reused temporary body after some messages: the last body that was not empty. */
  function Stale(ms: seq<Message>): seq<Byte> {
    if ms == [] then []
    else if ms[|ms| - 1].body != [] then ms[|ms| - 1].body
    else Stale(ms[..|ms| - 1])
  }

  /** What the receiver makes of messages: all headers are right, but a message without a body
      carries the body of an earlier one. */
  function Received(ms: seq<Message>): (r: seq<Message>)
    ensures |r| == |ms|
  {
    if ms == [] then []
    else Received(ms[..|ms| - 1]) + [Message(ms[|ms| - 1].header, Stale(ms))]
  }

  lemma {:induction false} ReceivedAt(ms: seq<Message>, i: nat)
    requires i < |ms|
    ensures Received(ms)[i] == Message(ms[i].header, Stale(ms[..i + 1]))
    ensures Received(ms[..i]) <= Received(ms)
    decreases |ms|
  {
    var n := |ms| - 1;
    if i == n {
      assert ms[..i + 1] == ms;
    } else {
      ReceivedAt(ms[..n], i);
      assert ms[..n][..i + 1] == ms[..i + 1] && ms[..n][..i] == ms[..i];
    }
  }

  /** Headers arrive as sent, and so do the first `size` bytes of every body. */
  lemma ReceivedPrefix(ms: seq<Message>, i: nat)
    requires AllWellFormed(ms) && i < |ms|
    ensures var r := Received(ms)[i];
            r.header == ms[i].header && r.header.size <= |r.body| && r.body[..r.header.size] == ms[i].body
  {
    ReceivedAt(ms, i);
    assert ms[..i + 1][i] == ms[i];
  }

  /** No message without a body follows one with a body. */
  predicate NeverEmptyAfterBody(ms: seq<Message>) {
    forall i, j :: 0 <= i < j < |ms| && ms[i].body != [] ==> ms[j].body != []
  }

  lemma {:induction false} StaleEmpty(ms: seq<Message>)
    ensures Stale(ms) == [] <==> forall i :: 0 <= i < |ms| ==> ms[i].body == []
    decreases |ms|
  {
    if ms != [] && ms[|ms| - 1].body == [] {
      StaleEmpty(ms[..|ms| - 1]);
    }
  }

  /** Messages are received exactly as sent if and only if none without a body follows one with
      a body. */
  lemma ReceivedExactlyIff(ms: seq<Message>)
    ensures Received(ms) == ms <==> NeverEmptyAfterBody(ms)
  {
    if NeverEmptyAfterBody(ms) {
      forall j | 0 <= j < |ms| ensures Received(ms)[j] == ms[j] {
        ReceivedAt(ms, j);
        StaleEmpty(ms[..j + 1]);
        assert ms[..j + 1][..j] == ms[..j];
      }
    }
    if Received(ms) == ms {
      forall i, j | 0 <= i < j < |ms| && ms[i].body != [] ensures ms[j].body != [] {
        ReceivedAt(ms, j);
        StaleEmpty(ms[..j + 1]);
        assert ms[..j + 1][i] == ms[i];
      }
    }
  }
}
