/** The session orchestrator (NetSdrClient): connects the control channel and runs the setup
    handshake, starts and stops IQ streaming, retunes the receiver, and stores the samples of every
    data item that arrives on the streaming channel.

    A control request is sent and its reply received in one step: the device's reply is delivered
    before the send returns, so there is never more than one request outstanding. */
module Client {
  import opened LittleEndian
  import opened NetSdrMessageHelper
  import opened Networking

  /** Width, in bits, of the samples read from each streamed data item. */
  const SinkSampleBits: nat := 16

  /** A SetControlItem request: the item and its parameter bytes. */
  datatype ControlRequest = ControlRequest(item: ControlItem, args: Bytes)

  /** What a control request came back with. */
  datatype Reply = NotConnected | Answered(bytes: Bytes)

  /** Whether a control item's parameters fit in one frame. */
  predicate Fits(args: Bytes)
  {
    HeaderLength + ControlItemLength + |args| <= MaxMessageLength
  }

  /** The client's fixed requests: three setup items, and receiver-state parameters that fit a frame. */
  predicate ValidSettings(handshake: seq<ControlRequest>, runArgs: Bytes, idleArgs: Bytes)
  {
    |handshake| == 3 && (forall k :: 0 <= k < 3 ==> Fits(handshake[k].args)) && Fits(runArgs) && Fits(idleArgs)
  }

  /** The SetControlItem frame for an item: one that translates back to exactly that request. */
  function RequestFrame(item: ControlItem, args: Bytes): (frame: Bytes)
    requires Fits(args)
    ensures TranslateMessage(frame) == Translation(true, SetControlItem, Item(item), 0, args)
  {
    ControlRoundTrip(SetControlItem, item, args);
    GetControlItemMessage(SetControlItem, item, args).value
  }

  /** Parameters of the receiver-frequency item: the channel as one byte, then the frequency in Hz as
      a 40-bit little-endian number; both are truncated to those widths. */
  function FrequencyArgs(hz: int, channel: int): (args: Bytes)
    ensures |args| == 6
    ensures args[0] == channel % 256
    ensures FromLE(args[1..]) == TwosComplement(hz, 5)
  {
    var args := [channel % 256] + ToLE(TwosComplement(hz, 5), 5);
    RoundTripLE(TwosComplement(hz, 5), 5);
    assert args[1..] == ToLE(TwosComplement(hz, 5), 5);
    args
  }

  /** A frequency below 2^40 on a channel below 256 is read back unchanged from the frame
      ChangeFrequencyAsync sends. */
  lemma FrequencyRoundTrip(hz: int, channel: int)
    requires 0 <= hz < Pow256(5) && 0 <= channel < 256
    ensures var t := TranslateMessage(RequestFrame(ReceiverFrequency, FrequencyArgs(hz, channel)));
            t.ok && t.code == Item(ReceiverFrequency) && t.body[0] == channel && FromLE(t.body[1..]) == hz
  {
    TwosComplementOfUnsigned(hz, 5);
  }

  /** Each value narrowed to 16 bits, as written to the sample file. */
  function Narrow(values: seq<int>): (r: seq<int>)
    ensures |r| == |values|
    ensures forall k :: 0 <= k < |r| ==> -32768 <= r[k] < 32768 && (r[k] - values[k]) % 65536 == 0
    ensures (forall k :: 0 <= k < |values| ==> -32768 <= values[k] < 32768) ==> r == values
  {
    seq(|values|, k requires 0 <= k < |values| => ToInt16(values[k]))
  }

  /** Narrowing one more value extends the narrowed prefix by that value narrowed. */
  lemma NarrowStep(values: seq<int>, i: nat)
    requires i < |values|
    ensures Narrow(values[..i + 1]) == Narrow(values[..i]) + [ToInt16(values[i])]
  {
    var a, b := Narrow(values[..i + 1]), Narrow(values[..i]) + [ToInt16(values[i])];
    assert |a| == |b|;
    forall k | 0 <= k < |a| ensures a[k] == b[k] {
    }
  }

  /** The samples stored for a message from the streaming channel: none when it does not translate,
      otherwise its body read as 16-bit samples. */
  function StoredSamples(msg: Bytes): (r: seq<int>)
    ensures !TranslateMessage(msg).ok ==> r == []
    ensures TranslateMessage(msg).ok ==> r == GetSamples(SinkSampleBits, TranslateMessage(msg).body).value
  {
    var t := TranslateMessage(msg);
    if !t.ok then []
    else
      var values := GetSamples(SinkSampleBits, t.body).value;
      assert Narrow(values) == values;
      Narrow(values)
  }

  /** A data item carrying 16-bit samples stores exactly those samples, in order. */
  lemma StoredSamplesRoundTrip(t: MsgType, sequenceNumber: nat, values: seq<int>)
    requires t.IsDataItem() && sequenceNumber < 0x1_0000 && InSignedRange(values, 2)
    ensures StoredSamples(GetDataItemMessage(t, ToLE(sequenceNumber, 2) + EncodeSamples(values, 2))) == values
  {
    DataRoundTrip(t, sequenceNumber, EncodeSamples(values, 2));
    SamplesRoundTrip(values, 2, []);
    assert EncodeSamples(values, 2) + [] == EncodeSamples(values, 2);
  }

  /** The data item with sequence number 0 and samples 0x0001, 0x0002 stores 1 then 2. */
  lemma StoredSamplesOfTestItem()
    ensures StoredSamples(GetDataItemMessage(DataItem0, [0x00, 0x00, 0x01, 0x00, 0x02, 0x00])) == [1, 2]
  {
    assert EncodeSamples([1, 2], 2) == [0x01, 0x00, 0x02, 0x00];
    assert ToLE(0, 2) + EncodeSamples([1, 2], 2) == [0x00, 0x00, 0x01, 0x00, 0x02, 0x00];
    StoredSamplesRoundTrip(DataItem0, 0, [1, 2]);
  }

  class NetSdrClient {
    const tcp: TcpChannel
    const udp: UdpChannel
    /** The three setup requests sent after connecting, and the receiver-state parameters that
        start and stop the IQ stream. */
    const handshake: seq<ControlRequest>
    const runArgs: Bytes
    const idleArgs: Bytes
    /** Whether the client has started the IQ stream (settable by callers, as in the source). */
    var iqStarted: bool
    /** The sample file, as the 16-bit values appended to it. */
    var samples: seq<int>

    ghost predicate Valid()
    {
      ValidSettings(handshake, runArgs, idleArgs)
    }

    /** The frames of the setup handshake, in order. */
    function HandshakeFrames(): (frames: seq<Bytes>)
      requires Valid()
      ensures |frames| == 3
      ensures forall k :: 0 <= k < 3 ==>
                TranslateMessage(frames[k]) == Translation(true, SetControlItem, Item(handshake[k].item), 0, handshake[k].args)
    {
      seq(3, k requires 0 <= k < 3 => RequestFrame(handshake[k].item, handshake[k].args))
    }

    constructor (tcp: TcpChannel, udp: UdpChannel, handshake: seq<ControlRequest>, runArgs: Bytes, idleArgs: Bytes)
      requires ValidSettings(handshake, runArgs, idleArgs)
      ensures Valid()
      ensures this.tcp == tcp && this.udp == udp
      ensures this.handshake == handshake && this.runArgs == runArgs && this.idleArgs == idleArgs
      ensures !iqStarted && samples == []
    {
      this.tcp := tcp;
      this.udp := udp;
      this.handshake := handshake;
      this.runArgs := runArgs;
      this.idleArgs := idleArgs;
      iqStarted := false;
      samples := [];
    }

    /** Send one control request and wait for its reply; nothing is sent without a connection. */
    method SendTcpRequest(frame: Bytes) returns (reply: Reply)
      modifies tcp
      ensures tcp.connected == old(tcp.connected)
      ensures old(tcp.connected) ==> reply == Answered(tcp.reply) && tcp.calls == old(tcp.calls) + [SendCall(frame)]
      ensures !old(tcp.connected) ==> reply == NotConnected && tcp.calls == old(tcp.calls)
    {
      if !tcp.connected {
        return NotConnected;
      }
      var answer := tcp.SendMessage(frame);
      reply := Answered(answer);
    }

    /** Connect and run the setup handshake; nothing at all when already connected. The handshake
        is sent only if the connection attempt succeeded. */
    method ConnectAsync()
      requires Valid()
      modifies tcp
      ensures tcp.connected == (old(tcp.connected) || tcp.accepts)
      ensures old(tcp.connected) ==> tcp.calls == old(tcp.calls)
      ensures !old(tcp.connected) ==>
                tcp.calls == old(tcp.calls) + [ConnectCall] + (if tcp.accepts then SendCalls(HandshakeFrames()) else [])
    {
      if !tcp.connected {
        tcp.Connect();
        var frames := HandshakeFrames();
        var i := 0;
        while i < |frames|
          invariant 0 <= i <= |frames|
          invariant tcp.connected == tcp.accepts
          invariant tcp.calls == old(tcp.calls) + [ConnectCall] + (if tcp.accepts then SendCalls(frames[..i]) else [])
        {
          SendCallsStep(frames, i);
          var _ := SendTcpRequest(frames[i]);
          i := i + 1;
        }
        assert frames[..|frames|] == frames;
      }
    }

    /** Close the control channel, whatever its state; the IQ flag is left as it is. */
    method Disconect()
      modifies tcp
      ensures !tcp.connected
      ensures tcp.calls == old(tcp.calls) + [DisconnectCall]
    {
      tcp.Disconnect();
    }

    /** Start the IQ stream: send the running receiver state, mark the stream started and start
        listening for data items. Nothing happens without a connection. */
    method StartIQAsync()
      requires Valid()
      modifies this, tcp, udp
      ensures samples == old(samples) && tcp.connected == old(tcp.connected)
      ensures old(tcp.connected) ==>
                iqStarted && udp.listening
                && tcp.calls == old(tcp.calls) + [SendCall(RequestFrame(ReceiverState, runArgs))]
                && udp.calls == old(udp.calls) + [StartListeningCall]
      ensures !old(tcp.connected) ==> iqStarted == old(iqStarted) && unchanged(tcp, udp)
    {
      if !tcp.connected {
        return;
      }
      var _ := SendTcpRequest(RequestFrame(ReceiverState, runArgs));
      iqStarted := true;
      udp.StartListening();
    }

    /** Stop the IQ stream: send the idle receiver state, mark the stream stopped and stop
        listening. Nothing happens without a connection. */
    method StopIQAsync()
      requires Valid()
      modifies this, tcp, udp
      ensures samples == old(samples) && tcp.connected == old(tcp.connected)
      ensures old(tcp.connected) ==>
                !iqStarted && !udp.listening
                && tcp.calls == old(tcp.calls) + [SendCall(RequestFrame(ReceiverState, idleArgs))]
                && udp.calls == old(udp.calls) + [StopListeningCall]
      ensures !old(tcp.connected) ==> iqStarted == old(iqStarted) && unchanged(tcp, udp)
    {
      if !tcp.connected {
        return;
      }
      var _ := SendTcpRequest(RequestFrame(ReceiverState, idleArgs));
      iqStarted := false;
      udp.StopListening();
    }

    /** Retune a channel: send one receiver-frequency request and complete once its reply, of any
        content, has arrived. Nothing is sent without a connection. */
    method ChangeFrequencyAsync(hz: int, channel: int)
      modifies tcp
      ensures tcp.connected == old(tcp.connected)
      ensures old(tcp.connected) ==>
                tcp.calls == old(tcp.calls) + [SendCall(RequestFrame(ReceiverFrequency, FrequencyArgs(hz, channel)))]
      ensures !old(tcp.connected) ==> tcp.calls == old(tcp.calls)
    {
      var _ := SendTcpRequest(RequestFrame(ReceiverFrequency, FrequencyArgs(hz, channel)));
    }

    /** Handler for a message from the streaming channel: append its samples to the sample file,
        each narrowed to 16 bits, in order. */
    method OnUdpMessageReceived(msg: Bytes)
      modifies this
      ensures samples == old(samples) + StoredSamples(msg)
      ensures iqStarted == old(iqStarted)
    {
      var t := TranslateMessage(msg);
      if !t.ok {
        return;
      }
      var values := GetSamples(SinkSampleBits, t.body).value;
      var i := 0;
      while i < |values|
        invariant 0 <= i <= |values|
        invariant samples == old(samples) + Narrow(values[..i])
        invariant iqStarted == old(iqStarted)
      {
        NarrowStep(values, i);
        samples := samples + [ToInt16(values[i])];
        i := i + 1;
      }
      assert values[..|values|] == values;
    }
  }
}
