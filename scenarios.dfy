/** The client's test scenarios replayed on the model: each method arranges fresh channels and a
    client as the test fixture does, runs the operation under test, and its postcondition is what the
    test asserts. Whatever setup requests and receiver-state parameters the client is given, the
    assertions hold. */
module Scenarios {
  import opened LittleEndian
  import opened NetSdrMessageHelper
  import opened Networking
  import opened Client

  /** The reply the test double answers every control request with. */
  const TestReply: Bytes := [0xAA, 0xBB]

  /** A client over fresh channels, connected or not. */
  method NewClient(connected: bool, handshake: seq<ControlRequest>, runArgs: Bytes, idleArgs: Bytes)
    returns (client: NetSdrClient)
    requires ValidSettings(handshake, runArgs, idleArgs)
    ensures fresh(client) && fresh(client.tcp) && fresh(client.udp)
    ensures client.Valid() && client.handshake == handshake && client.runArgs == runArgs && client.idleArgs == idleArgs
    ensures client.tcp.connected == connected && client.tcp.accepts && client.tcp.reply == TestReply
    ensures client.tcp.calls == [] && client.udp.calls == [] && !client.udp.listening
    ensures !client.iqStarted && client.samples == []
  {
    var tcp := new TcpChannel(connected, true, TestReply);
    var udp := new UdpChannel();
    client := new NetSdrClient(tcp, udp, handshake, runArgs, idleArgs);
  }

  /** Connecting a disconnected client connects once and sends the three setup requests, each a
      SetControlItem frame carrying its item and parameters. */
  method ConnectWhenNotConnected(handshake: seq<ControlRequest>, runArgs: Bytes, idleArgs: Bytes)
    returns (client: NetSdrClient)
    requires ValidSettings(handshake, runArgs, idleArgs)
    ensures client.tcp.connected
    ensures Occurrences(client.tcp.calls, ConnectCall) == 1
    ensures |Sent(client.tcp.calls)| == 3
    ensures client.tcp.calls[0] == ConnectCall
    ensures forall k :: 0 <= k < 3 ==>
              TranslateMessage(Sent(client.tcp.calls)[k])
              == Translation(true, SetControlItem, Item(handshake[k].item), 0, handshake[k].args)
  {
    client := NewClient(false, handshake, runArgs, idleArgs);
    client.ConnectAsync();
    var frames := client.HandshakeFrames();
    assert client.tcp.calls == [ConnectCall] + SendCalls(frames);
    SendCallsSent(frames);
    SentAppend([ConnectCall], SendCalls(frames));
    OccurrencesAppend([ConnectCall], SendCalls(frames), ConnectCall);
    assert Sent([ConnectCall]) == [] by { assert [ConnectCall][..0] == []; }
    assert Occurrences([ConnectCall], ConnectCall) == 1 by { assert [ConnectCall][..0] == []; }
  }

  /** Connecting a connected client neither connects nor sends. */
  method ConnectWhenAlreadyConnected(handshake: seq<ControlRequest>, runArgs: Bytes, idleArgs: Bytes)
    returns (client: NetSdrClient)
    requires ValidSettings(handshake, runArgs, idleArgs)
    ensures Occurrences(client.tcp.calls, ConnectCall) == 0
    ensures Sent(client.tcp.calls) == []
  {
    client := NewClient(true, handshake, runArgs, idleArgs);
    client.ConnectAsync();
  }

  /** Disconnecting calls the transport's Disconnect once. */
  method DisconnectCallsTransport(handshake: seq<ControlRequest>, runArgs: Bytes, idleArgs: Bytes)
    returns (client: NetSdrClient)
    requires ValidSettings(handshake, runArgs, idleArgs)
    ensures Occurrences(client.tcp.calls, DisconnectCall) == 1
    ensures !client.tcp.connected
  {
    client := NewClient(false, handshake, runArgs, idleArgs);
    client.Disconect();
    assert client.tcp.calls == [DisconnectCall];
    assert [DisconnectCall][..0] == [];
  }

  /** Starting IQ without a connection sends nothing, does not listen and leaves the flag clear. */
  method StartIQWhenNotConnected(handshake: seq<ControlRequest>, runArgs: Bytes, idleArgs: Bytes)
    returns (client: NetSdrClient)
    requires ValidSettings(handshake, runArgs, idleArgs)
    ensures !client.iqStarted
    ensures Sent(client.tcp.calls) == []
    ensures Occurrences(client.udp.calls, StartListeningCall) == 0
  {
    client := NewClient(false, handshake, runArgs, idleArgs);
    client.StartIQAsync();
  }

  /** Starting IQ on a connection sends the receiver state once, listens once and sets the flag. */
  method StartIQWhenConnected(handshake: seq<ControlRequest>, runArgs: Bytes, idleArgs: Bytes)
    returns (client: NetSdrClient)
    requires ValidSettings(handshake, runArgs, idleArgs)
    ensures client.iqStarted && client.udp.listening
    ensures |Sent(client.tcp.calls)| == 1
    ensures TranslateMessage(Sent(client.tcp.calls)[0]).code == Item(ReceiverState)
    ensures Occurrences(client.udp.calls, StartListeningCall) == 1
  {
    client := NewClient(true, handshake, runArgs, idleArgs);
    client.StartIQAsync();
    var frame := RequestFrame(ReceiverState, runArgs);
    assert client.tcp.calls == [SendCall(frame)] && [SendCall(frame)][..0] == [];
    assert client.udp.calls == [StartListeningCall] && [StartListeningCall][..0] == [];
  }

  /** Stopping IQ without a connection sends nothing and does not stop listening. */
  method StopIQWhenNotConnected(handshake: seq<ControlRequest>, runArgs: Bytes, idleArgs: Bytes)
    returns (client: NetSdrClient)
    requires ValidSettings(handshake, runArgs, idleArgs)
    ensures !client.iqStarted
    ensures Sent(client.tcp.calls) == []
    ensures Occurrences(client.udp.calls, StopListeningCall) == 0
  {
    client := NewClient(false, handshake, runArgs, idleArgs);
    client.StopIQAsync();
  }

  /** Stopping a started stream on a connection sends the receiver state once, stops listening once
      and clears the flag. */
  method StopIQWhenConnected(handshake: seq<ControlRequest>, runArgs: Bytes, idleArgs: Bytes)
    returns (client: NetSdrClient)
    requires ValidSettings(handshake, runArgs, idleArgs)
    ensures !client.iqStarted && !client.udp.listening
    ensures |Sent(client.tcp.calls)| == 1
    ensures TranslateMessage(Sent(client.tcp.calls)[0]).code == Item(ReceiverState)
    ensures Occurrences(client.udp.calls, StopListeningCall) == 1
  {
    client := NewClient(true, handshake, runArgs, idleArgs);
    client.iqStarted := true;
    client.StopIQAsync();
    var frame := RequestFrame(ReceiverState, idleArgs);
    assert client.tcp.calls == [SendCall(frame)] && [SendCall(frame)][..0] == [];
    assert client.udp.calls == [StopListeningCall] && [StopListeningCall][..0] == [];
  }

  /** Changing the frequency on a connection sends one receiver-frequency control frame and returns
      once the reply has come back. */
  method ChangeFrequencyWhenConnected(hz: int, channel: int, handshake: seq<ControlRequest>, runArgs: Bytes, idleArgs: Bytes)
    returns (client: NetSdrClient)
    requires ValidSettings(handshake, runArgs, idleArgs)
    ensures |Sent(client.tcp.calls)| == 1
    ensures TranslateMessage(Sent(client.tcp.calls)[0]).ok
    ensures TranslateMessage(Sent(client.tcp.calls)[0]).code == Item(ReceiverFrequency)
  {
    client := NewClient(true, handshake, runArgs, idleArgs);
    client.ChangeFrequencyAsync(hz, channel);
    var frame := RequestFrame(ReceiverFrequency, FrequencyArgs(hz, channel));
    assert client.tcp.calls == [SendCall(frame)] && [SendCall(frame)][..0] == [];
  }

  /** A data item with two 16-bit samples 1 and 2 arriving on the streaming channel puts 1 then 2
      in the sample file. */
  method UdpMessageWritesSamples(handshake: seq<ControlRequest>, runArgs: Bytes, idleArgs: Bytes)
    returns (client: NetSdrClient)
    requires ValidSettings(handshake, runArgs, idleArgs)
    ensures |client.samples| >= 2
    ensures client.samples[0] == 1 && client.samples[1] == 2
  {
    client := NewClient(false, handshake, runArgs, idleArgs);
    var message := GetDataItemMessage(DataItem0, [0x00, 0x00, 0x01, 0x00, 0x02, 0x00]);
    client.OnUdpMessageReceived(message);
    StoredSamplesOfTestItem();
  }
}
