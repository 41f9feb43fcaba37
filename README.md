# NetSDR client: message codec and session orchestrator

A Dafny model of the two behavioural pieces of the NetSDR client application:

- **The message codec (`NetSdrMessageHelper`)**
  - `GetControlItemMessage` builds a control-item frame: a 16-bit little-endian header (message type in bits 15..13, total frame length in bits 12..0), then the 16-bit little-endian control item code, then the parameters. A frame longer than 8191 bytes is refused.
  - `GetDataItemMessage` builds a data-item frame: the header, then the parameters. The first two parameter bytes are the sequence number. The RFSPACE NetSDR interface specification puts 0 in the length field of the maximum-size (8194-byte) data item. The model writes 0 for every data frame too long for the 13-bit field, and only data frames may carry it.
  - `TranslateMessage` parses a frame into a success flag, the type, the item code, the sequence number and the body. It still reports what it parsed when it fails.
  - `GetSamples` cuts a data body into consecutive fixed-width little-endian samples.
- **The session orchestrator (`NetSdrClient`)**
  - It is a class over a control (TCP) channel and a streaming (UDP) channel.
  - It connects and runs a three-request setup handshake.
  - It starts and stops the IQ stream by sending the receiver state and starting or stopping the UDP listener, and it keeps the `IQStarted` flag.
  - It retunes the receiver.
  - It appends the 16-bit samples of every data item that arrives on the streaming channel to the sample file.

The production sources of `NetSdrMessageHelper` and `NetSdrClient` are not part of this model. Their behaviour is pinned by the test suites cited below. Where the tests are silent, the model follows the NetSDR interface specification or makes a choice of its own. Each such choice is listed under "## Left out".

Files:
- `little_endian.dfy` (module `LittleEndian`): bytes, little-endian encoding, two's complement and 16-bit narrowing.
- `message_helper.dfy` (module `NetSdrMessageHelper`): the codec, as pure functions with round-trip lemmas.
- `networking.dfy` (module `Networking`): the two transports the client uses. Each is a class with its observable state and a ghost trace of every call made on it.
- `client.dfy` (module `Client`): the `NetSdrClient` class, with the specification functions and lemmas its methods are proved against.
- `scenarios.dfy` (module `Scenarios`): each client test replayed on the model. Each method's postcondition is what that test asserts, proved for every setup handshake and every pair of receiver-state parameters.

## Model

| member | source | states |
|---|---|---|
| NetSdrMessageHelper.GetControlItemMessage | NetSdrClientAppTests/NetSdrMessageHelperTests.cs:7-35 | succeeds iff 4 + parameters fit in 8191 bytes, otherwise fails with LengthExceeded; on success the frame is 4 + parameters long, its header gives back the type and a length equal to the frame's size, bytes 2..3 hold the item code little-endian, and the parameters follow unchanged |
| NetSdrMessageHelper.GetDataItemMessage | NetSdrClientAppTests/NetSdrMessageHelperTests.cs:37-60 | the frame is header + parameters, 2 + parameters long; the header gives back the type; the length field equals the frame size when it fits 13 bits and is the 0 sentinel otherwise |
| NetSdrMessageHelper.Header | NetSdrClientAppTests/NetSdrMessageHelperTests.cs:22-24 | a two-byte header whose type field (top 3 bits) and length field (low 13 bits) read back as the type and length it was built from |
| NetSdrMessageHelper.HeaderType | NetSdrClientAppTests/NetSdrMessageHelperTests.cs:22-23 | the type read from a header is the one whose tag is the 16-bit header value shifted right by 13 |
| NetSdrMessageHelper.HeaderLengthField | NetSdrClientAppTests/NetSdrMessageHelperTests.cs:22-24 | the length read from a header is at most 8191, and the header value is the type's tag shifted left by 13 plus that length |
| NetSdrMessageHelper.CodeValue | NetSdrClientAppTests/NetSdrMessageHelperTests.cs:25-32 | every control item's wire value is below 0x8000, so reading bytes 2..3 as an Int16 gives back the code unchanged |
| NetSdrMessageHelper.TypeOfTag | NetSdrClientAppTests/NetSdrMessageHelperTests.cs:23 | every 3-bit type code stands for the message type whose tag it is (the inverse of Tag) |
| NetSdrMessageHelper.Tag | NetSdrClientAppTests/NetSdrMessageHelperTests.cs:23 | a message type's header code is below 8, and it is in the upper half exactly for the data-item family |
| NetSdrMessageHelper.ItemOfValue | NetSdrClientAppTests/NetSdrMessageHelperTests.cs:120-153 | a code value is recognised as the item carrying that value, or as None exactly when no item carries it |
| NetSdrMessageHelper.ItemOfCodeValue | NetSdrClientAppTests/NetSdrMessageHelperTests.cs:62-86 | every item's code value is recognised as that item |
| NetSdrMessageHelper.TranslateMessage | NetSdrClientAppTests/NetSdrMessageHelperTests.cs:62-180 | ok iff the frame has 4+ bytes, its length field equals its size (or, for a data item, is the 0 sentinel), and it is a data item or carries a known code; the type is read from the header whenever there are two bytes; control frames report sequence 0 and the decoded code, data frames report code None and the little-endian sequence number; the body is everything after byte 4 |
| NetSdrMessageHelper.ControlRoundTrip | NetSdrClientAppTests/NetSdrMessageHelperTests.cs:62-86 | a control frame that fits translates back to ok, its type, its item, sequence 0 and its parameters |
| NetSdrMessageHelper.DataRoundTrip | NetSdrClientAppTests/NetSdrMessageHelperTests.cs:88-118 | a data frame of sequence number ++ payload translates back to ok, its type, code None, that sequence number and that payload, whatever its size |
| NetSdrMessageHelper.UnknownCodeRejected | NetSdrClientAppTests/NetSdrMessageHelperTests.cs:120-153 | a control-family frame with a code no item has translates to not ok, yet reports its type, code None, sequence 0 and the bytes after the code |
| NetSdrMessageHelper.AllOnesIsUnknown | NetSdrClientAppTests/NetSdrMessageHelperTests.cs:125 | 0xFFFF is the code of no control item |
| NetSdrMessageHelper.TruncatedFrameRejected | NetSdrClientAppTests/NetSdrMessageHelperTests.cs:155-180 | any proper prefix of a frame whose length field gives its size fails to translate |
| NetSdrMessageHelper.TruncatedControlReportsParsedFields | NetSdrClientAppTests/NetSdrMessageHelperTests.cs:155-180 | a control frame with at least one parameter, cut by its last byte, fails to translate but still reports its type and its item |
| NetSdrMessageHelper.MaxDataItemUsesSentinel | NetSdrClientAppTests/NetSdrMessageHelperTests.cs:182-218 | a data item of 8192 parameter bytes is 8194 bytes long, carries length field 0, and translates back to ok, its type, code None, its sequence number and its 8190-byte payload |
| NetSdrMessageHelper.ControlTooLong | NetSdrClientAppTests/NetSdrMessageHelperTests.cs:220-237 | a control item with 8188 parameter bytes (8192 in all) is refused with LengthExceeded |
| NetSdrMessageHelper.ControlFrameCanonical | NetSdrClientAppTests/NetSdrMessageHelperTests.cs:62-86 | a control frame that translates successfully (so its length field is its size) is exactly the frame GetControlItemMessage builds from the reported type, item and body: translation loses nothing |
| NetSdrMessageHelper.DataFrameCanonical | NetSdrClientAppTests/NetSdrMessageHelperTests.cs:88-118 | a data frame that translates successfully (with a non-zero length field, or above 8191 bytes) is exactly the frame GetDataItemMessage builds from the reported type, sequence number and body |
| NetSdrMessageHelper.HeaderFieldsDetermineValue | NetSdrClientAppTests/NetSdrMessageHelperTests.cs:22-24 | two headers with the same type and length fields are the same 16-bit value |
| NetSdrMessageHelper.HeaderOfPrefix | NetSdrClientAppTests/NetSdrMessageHelperTests.cs:18-24 | a frame's header fields depend on its first two bytes only |
| NetSdrMessageHelper.Samples | NetSdrClientAppTests/NetSdrMessageHelperTests.cs:239-329 | cutting a body into w-byte samples yields floor(length / w) values, each in the signed w-byte range |
| NetSdrMessageHelper.SampleAt | NetSdrClientAppTests/NetSdrMessageHelperTests.cs:239-329 | sample k is the two's-complement value of the body's k-th whole chunk of w bytes |
| NetSdrMessageHelper.GetSamples | NetSdrClientAppTests/NetSdrMessageHelperTests.cs:239-341 | succeeds iff the width is 1 to 32 bits, otherwise fails with SampleSizeOutOfRange; on success yields floor(length / ceil(bits / 8)) values, each within the 32-bit signed range and equal to the two's-complement value of its chunk |
| NetSdrMessageHelper.SamplesRoundTrip | NetSdrClientAppTests/NetSdrMessageHelperTests.cs:239-329 | values in the signed w-byte range, written back to back little-endian and followed by fewer than w stray bytes, are read back by GetSamples at 8w bits exactly and in order |
| NetSdrMessageHelper.SamplesOfEncoding | NetSdrClientAppTests/NetSdrMessageHelperTests.cs:239-329 | cutting such an encoding into w-byte samples gives back the values |
| NetSdrMessageHelper.EncodeSamples | NetSdrClientAppTests/NetSdrMessageHelperTests.cs:297-301 | the encoding of n values at w bytes each is n * w bytes long |
| NetSdrMessageHelper.Samples8Bit | NetSdrClientAppTests/NetSdrMessageHelperTests.cs:239-251 | [1, 2, 3] at 8 bits reads as 1, 2, 3 |
| NetSdrMessageHelper.Samples16Bit | NetSdrClientAppTests/NetSdrMessageHelperTests.cs:253-270 | [1, 0, 2, 0] at 16 bits reads as 1, 2 |
| NetSdrMessageHelper.Samples24Bit | NetSdrClientAppTests/NetSdrMessageHelperTests.cs:272-289 | [1, 0, 0, 2, 0, 0] at 24 bits reads as 1, 2 |
| NetSdrMessageHelper.Samples32BitSigned | NetSdrClientAppTests/NetSdrMessageHelperTests.cs:291-310 | the test's bytes 40 E2 01 00 2E E1 FF FF (the Int32 little-endian bytes of 123456 and -7890) read back at 32 bits as 123456, -7890 |
| NetSdrMessageHelper.Int32TestBytes | NetSdrClientAppTests/NetSdrMessageHelperTests.cs:299-301 | the four-byte two's-complement patterns of 123456 and -7890 are 40 E2 01 00 and 2E E1 FF FF |
| NetSdrMessageHelper.SamplesIgnoreIncompleteTail | NetSdrClientAppTests/NetSdrMessageHelperTests.cs:312-329 | a trailing partial sample is dropped: [1, 0, 0xFF] at 16 bits reads as 1 |
| NetSdrMessageHelper.Samples40BitRejected | NetSdrClientAppTests/NetSdrMessageHelperTests.cs:331-341 | a 40-bit width is out of range for every body |
| LittleEndian.ToLE | NetSdrClientAppTests/NetSdrClientTests.cs:231-232 | BitConverter.GetBytes cut to n bytes: exactly n bytes, least significant first (byte 0 is x mod 256); RoundTripLE and ToFromLE make it the inverse of FromLE |
| LittleEndian.FromLE | NetSdrClientAppTests/NetSdrMessageHelperTests.cs:22 | the value of n little-endian bytes is below 256^n |
| LittleEndian.RoundTripLE | NetSdrClientAppTests/NetSdrMessageHelperTests.cs:93-97 | a value below 256^n is read back unchanged from its n little-endian bytes |
| LittleEndian.ToFromLE | NetSdrClientAppTests/NetSdrMessageHelperTests.cs:22-25 | encoding a byte string's value in as many bytes gives the string back |
| LittleEndian.FromLEInjective | NetSdrClientAppTests/NetSdrMessageHelperTests.cs:22-25 | two byte strings of equal length with the same value are equal |
| LittleEndian.SignExtend | NetSdrClientAppTests/NetSdrMessageHelperTests.cs:291-310 | the two's-complement value of a w-byte quantity lies in the signed w-byte range, is negative exactly when the top bit is set; it is the quantity when the top bit is clear and the quantity minus 256^w when it is set |
| LittleEndian.TwosComplement | NetSdrClientAppTests/NetSdrMessageHelperTests.cs:297-299 | the w-byte pattern of a value (its Euclidean remainder modulo 256^w) is below 256^w |
| LittleEndian.TwosComplementOfUnsigned | NetSdrClientAppTests/NetSdrMessageHelperTests.cs:296-300 | a value already in 0 .. 256^w - 1 is its own w-byte pattern (so GetBytes of 123456 is its plain little-endian encoding) |
| LittleEndian.SignExtendTwosComplement | NetSdrClientAppTests/NetSdrMessageHelperTests.cs:291-310 | every value in the signed w-byte range is recovered from its two's-complement pattern (so -7890 round-trips at 32 bits) |
| LittleEndian.ToInt16 | NetSdrClientAppTests/NetSdrClientTests.cs:257-258 | narrowing to a 16-bit signed integer lands in -32768 .. 32767, agrees with the value modulo 65536, and keeps values already in range |
| Networking.SendCallsSent | NetSdrClientAppTests/NetSdrClientTests.cs:105-106 | sending a list of frames records exactly those frames, in order, and no Connect or Disconnect |
| Networking.SentAppend | NetSdrClientAppTests/NetSdrClientTests.cs:106 | the frames sent in two consecutive stretches of calls are those of the first followed by those of the second |
| Networking.OccurrencesAppend | NetSdrClientAppTests/NetSdrClientTests.cs:105 | a call's count over two consecutive stretches of calls is the sum of its counts in each |
| Networking.TcpChannel.Connect | NetSdrClientApp/Networking/TcpClientWrapper.cs:25-49 | the channel ends connected iff it already was or the device accepts the connection (a failed attempt is swallowed); one Connect call is recorded |
| Networking.TcpChannel.Disconnect | NetSdrClientApp/Networking/TcpClientWrapper.cs:51-66 | the channel ends disconnected whatever its state; one Disconnect call is recorded |
| Networking.UdpChannel.StartListening | NetSdrClientAppTests/NetSdrClientTests.cs:64-67 | the streaming channel ends listening and one StartListening call is recorded |
| Networking.UdpChannel.StopListening | NetSdrClientAppTests/NetSdrClientTests.cs:69-70 | the streaming channel ends not listening and one StopListening call is recorded |
| Networking.TcpChannel.SendMessage | NetSdrClientAppTests/NetSdrClientTests.cs:56-62 | on an open channel, records the frame and returns the device's reply before it returns |
| Client.RequestFrame | NetSdrClientAppTests/NetSdrClientTests.cs:192-221 | the frame of a control request translates back to ok, SetControlItem, that item, sequence 0 and those parameters |
| Client.FrequencyArgs | NetSdrClientAppTests/NetSdrClientTests.cs:199-203 | the receiver-frequency parameters are 6 bytes: the channel truncated to a byte (channel mod 256), then the frequency's 40-bit two's-complement pattern little-endian |
| Client.FrequencyRoundTrip | NetSdrClientAppTests/NetSdrClientTests.cs:192-207 | a frequency below 2^40 on a channel below 256 is read back unchanged from the frame ChangeFrequencyAsync sends |
| Client.StoredSamples | NetSdrClientAppTests/NetSdrClientTests.cs:223-262 | the samples kept from an inbound message: none when it does not translate, otherwise its body read as 16-bit samples |
| Client.StoredSamplesRoundTrip | NetSdrClientAppTests/NetSdrClientTests.cs:230-247 | a data item whose body is 16-bit samples stores exactly those samples, in order |
| Client.StoredSamplesOfTestItem | NetSdrClientAppTests/NetSdrClientTests.cs:230-261 | the data item with sequence 0 and samples 0x0001, 0x0002 stores 1 then 2 |
| Client.Narrow | NetSdrClientAppTests/NetSdrClientTests.cs:252-258 | the values written to the sample file: one per value, each in the Int16 range and congruent to it modulo 65536, and all unchanged when they already fit 16 bits |
| Client.NarrowStep | NetSdrClientAppTests/NetSdrClientTests.cs:252-258 | narrowing one more value extends the narrowed prefix by that value narrowed |
| Client.NetSdrClient.HandshakeFrames | NetSdrClientAppTests/NetSdrClientTests.cs:90-107 | the setup handshake is three frames, the k-th translating back to ok, SetControlItem, the k-th request's item, sequence 0 and its parameters |
| Client.NetSdrClient.constructor | NetSdrClientAppTests/NetSdrClientTests.cs:78 | a new client over the given channels has IQStarted false and an empty sample file |
| Client.NetSdrClient.SendTcpRequest | NetSdrClientAppTests/NetSdrClientTests.cs:54-62 | with a connection, sends the frame once and returns the reply; without one, sends nothing and reports NotConnected; the connection state is unchanged |
| Client.NetSdrClient.ConnectAsync | NetSdrClientAppTests/NetSdrClientTests.cs:90-121 | when disconnected, records one Connect, then (if the connection came up) the three handshake frames in order; when already connected, records nothing |
| Client.NetSdrClient.Disconect | NetSdrClientAppTests/NetSdrClientTests.cs:123-131 | records one Disconnect and leaves the channel disconnected |
| Client.NetSdrClient.StartIQAsync | NetSdrClientAppTests/NetSdrClientTests.cs:133-160 | when connected, sends the running receiver state once, starts listening once and sets IQStarted; when not, changes neither channel nor the flag |
| Client.NetSdrClient.StopIQAsync | NetSdrClientAppTests/NetSdrClientTests.cs:162-190 | when connected, sends the idle receiver state once, stops listening once and clears IQStarted; when not, changes neither channel nor the flag |
| Client.NetSdrClient.ChangeFrequencyAsync | NetSdrClientAppTests/NetSdrClientTests.cs:192-221 | when connected, sends exactly the receiver-frequency frame for the frequency and channel and returns once its reply is in; when not, sends nothing |
| Client.NetSdrClient.OnUdpMessageReceived | NetSdrClientAppTests/NetSdrClientTests.cs:223-262 | appends the message's stored samples to the sample file, in order, and leaves IQStarted alone |
| Scenarios.NewClient | NetSdrClientAppTests/NetSdrClientTests.cs:25-79 | the test fixture: a fresh client over fresh channels with empty call records, the control channel connected or not as asked and answering every request with 0xAA 0xBB, the streaming channel idle, IQStarted false and no samples |
| Scenarios.ConnectWhenNotConnected | NetSdrClientAppTests/NetSdrClientTests.cs:90-107 | connecting a disconnected client calls Connect exactly once, first, and sends exactly three frames, each a SetControlItem request carrying the k-th setup item and its parameters |
| Scenarios.ConnectWhenAlreadyConnected | NetSdrClientAppTests/NetSdrClientTests.cs:109-121 | connecting a connected client calls Connect never and sends nothing |
| Scenarios.DisconnectCallsTransport | NetSdrClientAppTests/NetSdrClientTests.cs:123-131 | disconnecting calls the transport's Disconnect exactly once |
| Scenarios.StartIQWhenNotConnected | NetSdrClientAppTests/NetSdrClientTests.cs:133-145 | IQStarted stays false, nothing is sent and listening is never started |
| Scenarios.StartIQWhenConnected | NetSdrClientAppTests/NetSdrClientTests.cs:147-160 | IQStarted becomes true, exactly one receiver-state frame is sent and listening is started exactly once |
| Scenarios.StopIQWhenNotConnected | NetSdrClientAppTests/NetSdrClientTests.cs:162-174 | IQStarted stays false, nothing is sent and listening is never stopped |
| Scenarios.StopIQWhenConnected | NetSdrClientAppTests/NetSdrClientTests.cs:176-190 | a started stream: IQStarted becomes false, exactly one receiver-state frame is sent and listening is stopped exactly once |
| Scenarios.ChangeFrequencyWhenConnected | NetSdrClientAppTests/NetSdrClientTests.cs:192-221 | exactly one frame is sent, a valid receiver-frequency control frame, for any frequency and channel |
| Scenarios.UdpMessageWritesSamples | NetSdrClientAppTests/NetSdrClientTests.cs:223-262 | the data item with samples 1 and 2 leaves at least two samples in the file, 1 then 2 |

## Left out

- Asynchrony: the `TaskCompletionSource` pending-request slot, the event subscription on the control channel, and the race between the reply callback and the caller are not modelled. A request and its reply form one step, as in the test fixture, whose double answers every send before returning.
- Socket I/O, the receive loops, cancellation, disposal and console logging of the TCP and UDP wrappers are not modelled. The transports are the two classes in `Networking`, holding only their observable state and a ghost call trace. `UdpClientWrapper` is not part of this model.
- The sample file `samples.bin` is modelled as the append-only `samples` sequence of 16-bit values. File creation, deletion and byte layout are left out.
- The setup handshake's three items and the receiver-state parameters for starting and stopping the stream are not shown in the source. They are constructor parameters (`handshake`, `runArgs`, `idleArgs`), and every property holds for all of them.
- Message type tags and control item code values follow the RFSPACE NetSDR interface specification (SetControlItem 0 .. Ack 3, DataItem0 .. DataItem3 4 .. 7; ReceiverState 0x0018, ReceiverFrequency 0x0020, IQOutputDataSampleRate 0x00B8, RFFilter 0x0044, ADModes 0x008A). The tests do not pin them. The proofs use only that the tags are injective with the data family in the upper half, and that the item codes are distinct values below 0x10000. `AllOnesIsUnknown` states, for the test, that 0xFFFF is none of them.
- NetSdrMessageHelper.GetSamples: the tests pin only non-negative 8-, 16- and 24-bit samples and signed 32-bit samples. The model sign-extends every width from its chunk size; the tests do not decide this. Widths 1 to 32 bits are accepted and read ceil(bits / 8) bytes at a time.
- NetSdrMessageHelper.GetDataItemMessage: the tests pin the 0 length field only at 8194 bytes. The model writes 0 for every data frame above 8191 bytes. TranslateMessage accepts a 0 field on a data frame of any size, and never on a control frame.
- NetSdrMessageHelper.TranslateMessage: a frame of fewer than 4 bytes is not exercised by the tests. The model reports failure, code None, sequence 0 and an empty body, with the header's type when 2 or 3 bytes are present and SetControlItem (the default) otherwise.
- Client.NetSdrClient.OnUdpMessageReceived: a datagram that fails to translate contributes no samples; the tests send only a valid data item.
- NetSdrMessageHelper.GetControlItemMessage: building a frame with the `None` item code is not modelled. `ItemCode.None` exists only as a decode result.
- Client.FrequencyArgs: the layout of the receiver-frequency parameters (one channel byte, five little-endian frequency bytes) follows the NetSDR interface specification. The tests check only that one frame is sent.
- Client.NetSdrClient.ConnectAsync: if the transport's Connect fails silently, the model sends no handshake frames, because SendTcpRequest sends nothing without a connection. The test double always connects.
