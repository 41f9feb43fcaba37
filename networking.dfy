/** The two transports the client talks to, as the capabilities it uses (ITcpClient, IUdpClient):
    each keeps its observable state and a ghost record of every call made on it. */
module Networking {
  import opened LittleEndian

  /** A call on the control (TCP) channel. */
  datatype TcpCall = ConnectCall | DisconnectCall | SendCall(data: Bytes)

  /** A call on the streaming (UDP) channel. */
  datatype UdpCall = StartListeningCall | StopListeningCall

  /** The frames sent in a record of control-channel calls, in order. */
  ghost function Sent(calls: seq<TcpCall>): (r: seq<Bytes>)
    ensures |r| <= |calls|
  {
    if calls == [] then []
    else Sent(calls[..|calls| - 1]) + (if calls[|calls| - 1].SendCall? then [calls[|calls| - 1].data] else [])
  }

  /** How many times a call occurs in a record. */
  ghost function Occurrences<C>(calls: seq<C>, c: C): (n: nat)
    ensures n <= |calls|
  {
    if calls == [] then 0
    else Occurrences(calls[..|calls| - 1], c) + (if calls[|calls| - 1] == c then 1 else 0)
  }

  /** Sent distributes over concatenation of records. */
  lemma {:induction false} SentAppend(a: seq<TcpCall>, b: seq<TcpCall>)
    ensures Sent(a + b) == Sent(a) + Sent(b)
    decreases |b|
  {
    if b != [] {
      assert (a + b)[..|a + b| - 1] == a + b[..|b| - 1];
      SentAppend(a, b[..|b| - 1]);
    } else {
      assert a + b == a;
    }
  }

  /** Occurrences distributes over concatenation of records. */
  lemma {:induction false} OccurrencesAppend<C>(a: seq<C>, b: seq<C>, c: C)
    ensures Occurrences(a + b, c) == Occurrences(a, c) + Occurrences(b, c)
    decreases |b|
  {
    if b != [] {
      assert (a + b)[..|a + b| - 1] == a + b[..|b| - 1];
      OccurrencesAppend(a, b[..|b| - 1], c);
    } else {
      assert a + b == a;
    }
  }

  /** The records of sending each frame of a list, one after the other. */
  ghost function SendCalls(frames: seq<Bytes>): (r: seq<TcpCall>)
    ensures |r| == |frames|
    ensures forall k :: 0 <= k < |r| ==> r[k] == SendCall(frames[k])
  {
    if frames == [] then [] else SendCalls(frames[..|frames| - 1]) + [SendCall(frames[|frames| - 1])]
  }

  /** Sending one more frame of a list extends the record by that send. */
  lemma SendCallsStep(frames: seq<Bytes>, i: nat)
    requires i < |frames|
    ensures SendCalls(frames[..i + 1]) == SendCalls(frames[..i]) + [SendCall(frames[i])]
  {
    assert frames[..i + 1][..i] == frames[..i];
  }

  /** Sending a list of frames sends exactly those frames, and neither connects nor disconnects. */
  lemma {:induction false} SendCallsSent(frames: seq<Bytes>)
    ensures Sent(SendCalls(frames)) == frames
    ensures Occurrences(SendCalls(frames), ConnectCall) == 0
    ensures Occurrences(SendCalls(frames), DisconnectCall) == 0
    decreases |frames|
  {
    if frames != [] {
      var init := frames[..|frames| - 1];
      SendCallsSent(init);
      assert SendCalls(frames)[..|frames| - 1] == SendCalls(init);
      assert frames == init + [frames[|frames| - 1]];
    }
  }

  /** The control channel. Connecting succeeds when the device accepts the connection (a failed
      attempt is swallowed, leaving the channel disconnected); every request is answered with `reply`,
      delivered before SendMessage returns. */
  class TcpChannel {
    var connected: bool
    const accepts: bool
    const reply: Bytes
    ghost var calls: seq<TcpCall>

    constructor (connected: bool, accepts: bool, reply: Bytes)
      ensures this.connected == connected && this.accepts == accepts && this.reply == reply && calls == []
    {
      this.connected := connected;
      this.accepts := accepts;
      this.reply := reply;
      calls := [];
    }

    /** Open the connection; nothing happens to an open one. */
    method Connect()
      modifies this
      ensures connected == (old(connected) || accepts)
      ensures calls == old(calls) + [ConnectCall]
    {
      connected := connected || accepts;
      calls := calls + [ConnectCall];
    }

    /** Close the connection, whatever its state. */
    method Disconnect()
      modifies this
      ensures !connected
      ensures calls == old(calls) + [DisconnectCall]
    {
      connected := false;
      calls := calls + [DisconnectCall];
    }

    /** Write a frame; writing requires an open connection. Returns the message the device answers with. */
    method SendMessage(data: Bytes) returns (answer: Bytes)
      requires connected
      modifies this
      ensures connected
      ensures calls == old(calls) + [SendCall(data)]
      ensures answer == reply
    {
      calls := calls + [SendCall(data)];
      answer := reply;
    }
  }

  /** The streaming channel: whether its receive loop runs. */
  class UdpChannel {
    var listening: bool
    ghost var calls: seq<UdpCall>

    constructor ()
      ensures !listening && calls == []
    {
      listening := false;
      calls := [];
    }

    method StartListening()
      modifies this
      ensures listening
      ensures calls == old(calls) + [StartListeningCall]
    {
      listening := true;
      calls := calls + [StartListeningCall];
    }

    method StopListening()
      modifies this
      ensures !listening
      ensures calls == old(calls) + [StopListeningCall]
    {
      listening := false;
      calls := calls + [StopListeningCall];
    }
  }
}
