/** The NetSDR message codec (NetSdrMessageHelper): building control-item and data-item frames,
    translating a received frame back into its parts, and cutting a data body into samples.

    Frame layout (RFSPACE NetSDR interface specification, message header):
      bytes 0..1  16-bit little-endian header: bits 15..13 the message type, bits 12..0 the total
                  frame length including the header, or 0 for a data item longer than 8191 bytes
      bytes 2..3  control item code (control frames) or sequence number (data frames), little-endian
      bytes 4..   the body */
module NetSdrMessageHelper {
  import opened LittleEndian

  /** Largest length the 13-bit header field can carry. */
  const MaxMessageLength: nat := 8191

  /** The header and the control item code are each two bytes. */
  const HeaderLength: nat := 2
  const ControlItemLength: nat := 2

  /** The eight message types; the first four form the control family, the last four the data family. */
  datatype MsgType =
    | SetControlItem | CurrentControlItem | ControlItemRange | Ack
    | DataItem0 | DataItem1 | DataItem2 | DataItem3
  {
    predicate IsDataItem() {
      this == DataItem0 || this == DataItem1 || this == DataItem2 || this == DataItem3
    }
  }

  /** The 3-bit code of a message type in the header; the data family occupies the upper half. */
  function Tag(t: MsgType): (r: nat)
    ensures r < 8
    ensures r >= 4 <==> t.IsDataItem()
  {
    match t
    case SetControlItem => 0
    case CurrentControlItem => 1
    case ControlItemRange => 2
    case Ack => 3
    case DataItem0 => 4
    case DataItem1 => 5
    case DataItem2 => 6
    case DataItem3 => 7
  }

  /** The message type a 3-bit code stands for: the inverse of Tag, so every code is a type. */
  function TypeOfTag(n: nat): (t: MsgType)
    requires n < 8
    ensures Tag(t) == n
  {
    if n == 0 then SetControlItem
    else if n == 1 then CurrentControlItem
    else if n == 2 then ControlItemRange
    else if n == 3 then Ack
    else if n == 4 then DataItem0
    else if n == 5 then DataItem1
    else if n == 6 then DataItem2
    else DataItem3
  }

  /** Control items the client knows; any other code on the wire is unknown. */
  datatype ControlItem =
    | ReceiverState | ReceiverFrequency | IQOutputDataSampleRate | RFFilter | ADModes

  /** The control item code field as decoded: None when there is none or it is not a known item. */
  datatype ItemCode = None | Item(item: ControlItem)

  /** The 16-bit wire value of a control item (NetSDR control item numbers). */
  function CodeValue(c: ControlItem): (v: nat)
    ensures v < 0x8000
  {
    match c
    case ReceiverState => 0x0018
    case ReceiverFrequency => 0x0020
    case IQOutputDataSampleRate => 0x00B8
    case RFFilter => 0x0044
    case ADModes => 0x008A
  }

  /** Recognising a code value (Enum.IsDefined): the item with that value, or None when no item has it. */
  function ItemOfValue(v: nat): (r: ItemCode)
    ensures r.Item? ==> CodeValue(r.item) == v
    ensures r.None? ==> forall c: ControlItem :: CodeValue(c) != v
  {
    if v == 0x0018 then Item(ReceiverState)
    else if v == 0x0020 then Item(ReceiverFrequency)
    else if v == 0x00B8 then Item(IQOutputDataSampleRate)
    else if v == 0x0044 then Item(RFFilter)
    else if v == 0x008A then Item(ADModes)
    else None
  }

  /** Every item's code is recognised as that item. */
  lemma ItemOfCodeValue(c: ControlItem)
    ensures ItemOfValue(CodeValue(c)) == Item(c)
  {
  }

  datatype CodecError = LengthExceeded | SampleSizeOutOfRange

  datatype Result<T> = Ok(value: T) | Err(error: CodecError)

  /** The type field of a frame's header. */
  function HeaderType(msg: Bytes): (t: MsgType)
    requires |msg| >= HeaderLength
    ensures Tag(t) == FromLE(msg[..2]) / 8192
  {
    TypeOfTag(FromLE(msg[..2]) / 8192)
  }

  /** The length field of a frame's header. */
  function HeaderLengthField(msg: Bytes): (n: nat)
    requires |msg| >= HeaderLength
    ensures n <= MaxMessageLength
    ensures FromLE(msg[..2]) == 8192 * Tag(HeaderType(msg)) + n
  {
    FromLE(msg[..2]) % 8192
  }

  /** The header for a type and a length field. */
  function Header(t: MsgType, lengthField: nat): (h: Bytes)
    requires lengthField <= MaxMessageLength
    ensures |h| == HeaderLength
    ensures HeaderType(h) == t && HeaderLengthField(h) == lengthField
  {
    var num := Tag(t) * 8192 + lengthField;
    RoundTripLE(num, 2);
    assert ToLE(num, 2)[..2] == ToLE(num, 2);
    LemmaDivModUnique(num, 8192, Tag(t), lengthField);
    ToLE(num, 2)
  }

  /** A frame's header fields are read from its first two bytes only. */
  lemma HeaderOfPrefix(h: Bytes, rest: Bytes)
    requires |h| == HeaderLength
    ensures (h + rest)[..2] == h
    ensures HeaderType(h + rest) == HeaderType(h) && HeaderLengthField(h + rest) == HeaderLengthField(h)
  {
    assert (h + rest)[..2] == h == h[..2];
  }

  /** A control-item frame: header, item code, parameters; refused when longer than 8191 bytes. */
  function GetControlItemMessage(t: MsgType, item: ControlItem, parameters: Bytes): (r: Result<Bytes>)
    ensures r.Ok? <==> HeaderLength + ControlItemLength + |parameters| <= MaxMessageLength
    ensures r.Err? ==> r.error == LengthExceeded
    ensures r.Ok? ==> (|r.value| == HeaderLength + ControlItemLength + |parameters|
                       && HeaderType(r.value) == t && HeaderLengthField(r.value) == |r.value|
                       && FromLE(r.value[2..4]) == CodeValue(item)
                       && r.value[4..] == parameters)
  {
    var lengthWithHeader := HeaderLength + ControlItemLength + |parameters|;
    if lengthWithHeader > MaxMessageLength then Err(LengthExceeded)
    else
      var code := ToLE(CodeValue(item), 2);
      RoundTripLE(CodeValue(item), 2);
      var h := Header(t, lengthWithHeader);
      var msg := h + (code + parameters);
      HeaderOfPrefix(h, code + parameters);
      assert msg[2..4] == code && msg[4..] == parameters;
      assert h + code + parameters == msg;
      Ok(h + code + parameters)
  }

  /** A data-item frame: header then parameters (whose first two bytes are the sequence number).
      A frame longer than 8191 bytes carries 0 in its length field. */
  function GetDataItemMessage(t: MsgType, parameters: Bytes): (r: Bytes)
    ensures |r| == HeaderLength + |parameters|
    ensures HeaderType(r) == t
    ensures |r| <= MaxMessageLength ==> HeaderLengthField(r) == |r|
    ensures |r| > MaxMessageLength ==> HeaderLengthField(r) == 0
    ensures r[2..] == parameters
  {
    var lengthWithHeader := HeaderLength + |parameters|;
    var lengthField := if lengthWithHeader > MaxMessageLength then 0 else lengthWithHeader;
    var h := Header(t, lengthField);
    HeaderOfPrefix(h, parameters);
    assert (h + parameters)[2..] == parameters;
    h + parameters
  }

  /** What TranslateMessage reports: the success flag and the out-parameters it fills in. */
  datatype Translation = Translation(ok: bool, msgType: MsgType, code: ItemCode, sequenceNumber: nat, body: Bytes)

  /** Whether the length field agrees with the frame: equal to its size, or the 0 sentinel of a data item. */
  predicate LengthMatches(msg: Bytes)
    requires |msg| >= HeaderLength
  {
    var field := HeaderLengthField(msg);
    field == |msg| || (field == 0 && HeaderType(msg).IsDataItem())
  }

  /** Parse a frame. Fails on fewer than four bytes, on a length field that disagrees with the frame,
      and on an unknown control item code, yet still reports what it could parse. */
  function TranslateMessage(msg: Bytes): (r: Translation)
    ensures r.sequenceNumber < 0x1_0000
    ensures |msg| >= HeaderLength ==> r.msgType == HeaderType(msg)
    ensures !r.msgType.IsDataItem() ==> r.sequenceNumber == 0
    ensures r.msgType.IsDataItem() ==> r.code == None
    ensures r.ok <==> |msg| >= HeaderLength + ControlItemLength && LengthMatches(msg) && (r.msgType.IsDataItem() || r.code.Item?)
    ensures |msg| >= HeaderLength + ControlItemLength ==> r.body == msg[HeaderLength + ControlItemLength..]
    ensures |msg| >= HeaderLength + ControlItemLength && !r.msgType.IsDataItem() ==> r.code == ItemOfValue(FromLE(msg[2..4]))
    ensures |msg| >= HeaderLength + ControlItemLength && r.msgType.IsDataItem() ==> r.sequenceNumber == FromLE(msg[2..4])
  {
    if |msg| < HeaderLength then
      Translation(false, SetControlItem, None, 0, [])
    else
      var t := HeaderType(msg);
      if |msg| < HeaderLength + ControlItemLength then
        Translation(false, t, None, 0, [])
      else if t.IsDataItem() then
        Translation(LengthMatches(msg), t, None, FromLE(msg[2..4]), msg[HeaderLength + ControlItemLength..])
      else
        var code := ItemOfValue(FromLE(msg[2..4]));
        Translation(LengthMatches(msg) && code.Item?, t, code, 0, msg[HeaderLength + ControlItemLength..])
  }

  /** Control round trip: a control frame that fits translates back to its type, item and parameters,
      with sequence number 0. */
  lemma ControlRoundTrip(t: MsgType, item: ControlItem, parameters: Bytes)
    requires !t.IsDataItem()
    requires HeaderLength + ControlItemLength + |parameters| <= MaxMessageLength
    ensures GetControlItemMessage(t, item, parameters).Ok?
    ensures TranslateMessage(GetControlItemMessage(t, item, parameters).value)
            == Translation(true, t, Item(item), 0, parameters)
  {
    ItemOfCodeValue(item);
  }

  /** Data round trip: a data frame whose parameters are a sequence number followed by a payload
      translates back to its type, no item code, that sequence number and that payload, whatever its
      size (frames over 8191 bytes by way of the 0 sentinel). */
  lemma DataRoundTrip(t: MsgType, sequenceNumber: nat, payload: Bytes)
    requires t.IsDataItem() && sequenceNumber < 0x1_0000
    ensures TranslateMessage(GetDataItemMessage(t, ToLE(sequenceNumber, 2) + payload))
            == Translation(true, t, None, sequenceNumber, payload)
  {
    var parameters := ToLE(sequenceNumber, 2) + payload;
    var msg := GetDataItemMessage(t, parameters);
    assert msg[2..4] == parameters[..2] == ToLE(sequenceNumber, 2);
    assert msg[4..] == payload;
    RoundTripLE(sequenceNumber, 2);
  }

  /** A data item of 8192 parameter bytes (8194 in all) uses the 0 length field and translates back. */
  lemma MaxDataItemUsesSentinel(t: MsgType, sequenceNumber: nat, payload: Bytes)
    requires t.IsDataItem() && sequenceNumber < 0x1_0000 && |payload| == 8190
    ensures |GetDataItemMessage(t, ToLE(sequenceNumber, 2) + payload)| == 8194
    ensures HeaderLengthField(GetDataItemMessage(t, ToLE(sequenceNumber, 2) + payload)) == 0
    ensures TranslateMessage(GetDataItemMessage(t, ToLE(sequenceNumber, 2) + payload))
            == Translation(true, t, None, sequenceNumber, payload)
  {
    DataRoundTrip(t, sequenceNumber, payload);
  }

  /** A control frame of 8188 parameter bytes (8192 in all) is refused. */
  lemma ControlTooLong(t: MsgType, item: ControlItem, parameters: Bytes)
    requires |parameters| == 8188
    ensures GetControlItemMessage(t, item, parameters) == Err(LengthExceeded)
  {
  }

  /** A control-family frame whose code field is not a known item translates with ok = false, code None
      and sequence 0, but still reports its type and the bytes after the code. */
  lemma UnknownCodeRejected(t: MsgType, value: nat, body: Bytes)
    requires !t.IsDataItem() && value < 0x1_0000 && HeaderLength + ControlItemLength + |body| <= MaxMessageLength
    requires forall c: ControlItem :: CodeValue(c) != value
    ensures TranslateMessage(Header(t, HeaderLength + ControlItemLength + |body|) + ToLE(value, 2) + body)
            == Translation(false, t, None, 0, body)
  {
    var h := Header(t, HeaderLength + ControlItemLength + |body|);
    var msg := h + ToLE(value, 2) + body;
    assert msg[..2] == h[..2];
    assert ItemOfValue(value) == None by {
      assert CodeValue(ReceiverState) != value && CodeValue(ReceiverFrequency) != value;
      assert CodeValue(IQOutputDataSampleRate) != value && CodeValue(RFFilter) != value;
      assert CodeValue(ADModes) != value;
    }
    assert msg[2..4] == ToLE(value, 2);
    assert msg[4..] == body;
    RoundTripLE(value, 2);
  }

  /** The code 0xFFFF belongs to no control item. */
  lemma AllOnesIsUnknown()
    ensures forall c: ControlItem :: CodeValue(c) != 0xFFFF
  {
  }

  /** Truncation: cutting at least one trailing byte off a frame whose length field gives its size
      makes translation fail. */
  lemma TruncatedFrameRejected(msg: Bytes, n: nat)
    requires |msg| >= HeaderLength && HeaderLengthField(msg) == |msg|
    requires n < |msg|
    ensures !TranslateMessage(msg[..n]).ok
  {
    if n >= HeaderLength {
      assert msg[..n][..2] == msg[..2];
    }
  }

  /** A control frame without its last byte fails, yet still reports its type, and its item when at
      least one parameter byte was there to lose. */
  lemma TruncatedControlReportsParsedFields(t: MsgType, item: ControlItem, parameters: Bytes)
    requires !t.IsDataItem() && 1 <= |parameters| && HeaderLength + ControlItemLength + |parameters| <= MaxMessageLength
    ensures GetControlItemMessage(t, item, parameters).Ok?
    ensures var msg := GetControlItemMessage(t, item, parameters).value;
            var r := TranslateMessage(msg[..|msg| - 1]);
            !r.ok && r.msgType == t && r.code == Item(item)
  {
    var msg := GetControlItemMessage(t, item, parameters).value;
    TruncatedFrameRejected(msg, |msg| - 1);
    var cut := msg[..|msg| - 1];
    assert |cut| >= 4;
    assert cut[..2] == msg[..2];
    assert cut[2..4] == msg[2..4];
    ItemOfCodeValue(item);
  }

  /** A successfully translated control frame (whose length field is then its size) is exactly the
      frame GetControlItemMessage builds from what was reported: translation loses nothing. */
  lemma ControlFrameCanonical(msg: Bytes)
    requires |msg| >= HeaderLength
    requires TranslateMessage(msg).ok && !TranslateMessage(msg).msgType.IsDataItem()
    ensures GetControlItemMessage(TranslateMessage(msg).msgType, TranslateMessage(msg).code.item,
                                  TranslateMessage(msg).body) == Ok(msg)
  {
    var r := TranslateMessage(msg);
    var m := GetControlItemMessage(r.msgType, r.code.item, r.body).value;
    assert |m| == |msg|;
    FromLEInjective(m[..2], msg[..2]) by {
      HeaderFieldsDetermineValue(m, msg);
    }
    FromLEInjective(m[2..4], msg[2..4]);
    assert m == m[..2] + m[2..4] + m[4..];
    assert msg == msg[..2] + msg[2..4] + msg[4..];
  }

  /** A successfully translated data frame whose size fits the length field is exactly the frame
      GetDataItemMessage builds from its sequence number and body. */
  lemma DataFrameCanonical(msg: Bytes)
    requires |msg| >= HeaderLength && (HeaderLengthField(msg) != 0 || |msg| > MaxMessageLength)
    requires TranslateMessage(msg).ok && TranslateMessage(msg).msgType.IsDataItem()
    ensures GetDataItemMessage(TranslateMessage(msg).msgType,
                               ToLE(TranslateMessage(msg).sequenceNumber, 2) + TranslateMessage(msg).body) == msg
  {
    var r := TranslateMessage(msg);
    var parameters := ToLE(r.sequenceNumber, 2) + r.body;
    var m := GetDataItemMessage(r.msgType, parameters);
    assert |m| == |msg|;
    FromLEInjective(m[..2], msg[..2]) by {
      HeaderFieldsDetermineValue(m, msg);
    }
    ToFromLE(msg[2..4]);
    assert m[2..4] == parameters[..2] == msg[2..4];
    assert m == m[..2] + m[2..4] + m[4..];
    assert msg == msg[..2] + msg[2..4] + msg[4..];
  }

  /** Two headers with the same type and length field are the same 16-bit value. */
  lemma HeaderFieldsDetermineValue(a: Bytes, b: Bytes)
    requires |a| >= HeaderLength && |b| >= HeaderLength
    requires HeaderType(a) == HeaderType(b) && HeaderLengthField(a) == HeaderLengthField(b)
    ensures FromLE(a[..2]) == FromLE(b[..2])
  {
    var x, y := FromLE(a[..2]), FromLE(b[..2]);
    assert Tag(HeaderType(a)) == x / 8192 && Tag(HeaderType(b)) == y / 8192;
    assert x == 8192 * (x / 8192) + x % 8192;
    assert y == 8192 * (y / 8192) + y % 8192;
  }

  /** Bytes per sample for a width in bits, rounded up. */
  function SampleBytes(bits: nat): nat
  {
    (bits + 7) / 8
  }

  /** The body cut into consecutive w-byte little-endian two's-complement values; a trailing group
      shorter than w bytes is dropped. */
  function Samples(body: Bytes, w: nat): (r: seq<int>)
    requires 1 <= w <= 4
    ensures |r| == |body| / w
    ensures forall k :: 0 <= k < |r| ==> -(HalfRange(w) as int) <= r[k] < HalfRange(w)
    decreases |body|
  {
    if |body| < w then []
    else
      DivStep(|body|, w);
      [SignExtend(FromLE(body[..w]), w)] + Samples(body[w..], w)
  }

  /** Removing one chunk of w bytes removes one from the number of whole chunks. */
  lemma DivStep(n: nat, w: nat)
    requires 1 <= w <= n
    ensures n / w == (n - w) / w + 1
  {
    LemmaDivModUnique(n, w, (n - w) / w + 1, (n - w) % w);
  }

  /** Bytes k * w up to k * w + w of a body: its k-th whole chunk of w bytes. */
  function Chunk(body: Bytes, w: nat, k: nat): (c: Bytes)
    requires 1 <= w && k < |body| / w
    ensures |c| == w
  {
    ChunkInBounds(|body|, w, k);
    body[k * w..k * w + w]
  }

  lemma ChunkInBounds(n: nat, w: nat, k: nat)
    requires 1 <= w && k < n / w
    ensures k * w + w <= n
  {
    assert (k + 1) * w <= (n / w) * w by { MulMono(k + 1, n / w, w); }
    assert (n / w) * w + n % w == n;
  }

  lemma MulMono(a: nat, b: nat, w: nat)
    requires a <= b
    ensures a * w <= b * w
  {
  }

  /** Sample k is the two's-complement value of the k-th whole chunk of the body. */
  lemma {:induction false} SampleAt(body: Bytes, w: nat, k: nat)
    requires 1 <= w <= 4 && k < |body| / w
    ensures Samples(body, w)[k] == SignExtend(FromLE(Chunk(body, w, k)), w)
    decreases k
  {
    SamplesCons(body, w);
    if k > 0 {
      SampleAt(body[w..], w, k - 1);
      ChunkShift(body, w, k);
    } else {
      assert Chunk(body, w, 0) == body[..w];
    }
  }

  /** A body of at least one whole chunk reads as that chunk's value followed by the rest's samples. */
  lemma SamplesCons(body: Bytes, w: nat)
    requires 1 <= w <= 4 && w <= |body|
    ensures |body[w..]| / w == |body| / w - 1
    ensures Samples(body, w) == [SignExtend(FromLE(body[..w]), w)] + Samples(body[w..], w)
  {
    DivStep(|body|, w);
  }

  /** Chunk k - 1 of the body without its first chunk is chunk k of the body. */
  lemma ChunkShift(body: Bytes, w: nat, k: nat)
    requires 1 <= w <= |body| && 0 < k < |body| / w && |body[w..]| / w == |body| / w - 1
    ensures Chunk(body[w..], w, k - 1) == Chunk(body, w, k)
  {
    ChunkInBounds(|body|, w, k);
    assert (k - 1) * w + w == k * w;
  }

  /** GetSamples: widths 1 to 32 bits are read ceil(bits/8) bytes at a time; any other width is out of range. */
  function GetSamples(sampleBits: nat, body: Bytes): (r: Result<seq<int>>)
    ensures r.Ok? <==> 1 <= sampleBits <= 32
    ensures r.Err? ==> r.error == SampleSizeOutOfRange
    ensures r.Ok? ==> |r.value| == |body| / SampleBytes(sampleBits)
    ensures r.Ok? ==> forall k :: 0 <= k < |r.value| ==> -0x8000_0000 <= r.value[k] < 0x8000_0000
    ensures r.Ok? ==> forall k :: 0 <= k < |r.value| ==>
      r.value[k] == SignExtend(FromLE(Chunk(body, SampleBytes(sampleBits), k)), SampleBytes(sampleBits))
  {
    if sampleBits == 0 || sampleBits > 32 then Err(SampleSizeOutOfRange)
    else
      var w := SampleBytes(sampleBits);
      var values := Samples(body, w);
      assert HalfRange(w) <= 0x8000_0000 by {
        assert Pow256(4) == 0x1_0000_0000;
        PowMono(w, 4);
      }
      forall k | 0 <= k < |values|
        ensures values[k] == SignExtend(FromLE(Chunk(body, w, k)), w)
      {
        SampleAt(body, w, k);
      }
      Ok(values)
  }

  lemma PowMono(a: nat, b: nat)
    requires a <= b
    ensures Pow256(a) <= Pow256(b)
    decreases b
  {
    if a < b {
      PowMono(a, b - 1);
    }
  }

  /** The little-endian two's-complement bytes of a list of w-byte values, back to back. */
  function EncodeSamples(values: seq<int>, w: nat): (r: Bytes)
    ensures |r| == |values| * w
  {
    if values == [] then []
    else
      assert |values| * w == (|values| - 1) * w + w;
      ToLE(TwosComplement(values[0], w), w) + EncodeSamples(values[1..], w)
  }

  predicate InSignedRange(values: seq<int>, w: nat)
    requires w >= 1
  {
    forall k :: 0 <= k < |values| ==> -(HalfRange(w) as int) <= values[k] < HalfRange(w)
  }

  /** Sample round trip: values in the signed range of w bytes, written back to back and followed by
      fewer than w stray bytes, are read back by GetSamples at 8w bits exactly. */
  lemma {:induction false} SamplesRoundTrip(values: seq<int>, w: nat, tail: Bytes)
    requires 1 <= w <= 4 && InSignedRange(values, w) && |tail| < w
    ensures GetSamples(8 * w, EncodeSamples(values, w) + tail) == Ok(values)
  {
    assert SampleBytes(8 * w) == w;
    SamplesOfEncoding(values, w, tail);
  }

  lemma {:induction false} SamplesOfEncoding(values: seq<int>, w: nat, tail: Bytes)
    requires 1 <= w <= 4 && InSignedRange(values, w) && |tail| < w
    ensures Samples(EncodeSamples(values, w) + tail, w) == values
  {
    if values == [] {
      assert EncodeSamples(values, w) + tail == tail;
    } else {
      var u := TwosComplement(values[0], w);
      var body, rest := EncodeSamples(values, w) + tail, EncodeSamples(values[1..], w) + tail;
      EncodeSplit(values, w, tail);
      SamplesCons(body, w);
      RoundTripLE(u, w);
      SignExtendTwosComplement(values[0], w);
      SamplesOfEncoding(values[1..], w, tail);
    }
  }

  /** The encoded body splits into the first value's w bytes and the encoding of the rest. */
  lemma EncodeSplit(values: seq<int>, w: nat, tail: Bytes)
    requires values != []
    ensures var body := EncodeSamples(values, w) + tail;
            w <= |body| && body[..w] == ToLE(TwosComplement(values[0], w), w)
            && body[w..] == EncodeSamples(values[1..], w) + tail
  {
    var chunk, rest := ToLE(TwosComplement(values[0], w), w), EncodeSamples(values[1..], w) + tail;
    assert EncodeSamples(values, w) + tail == chunk + rest;
  }

  /** 8-bit samples: [1, 2, 3] reads as 1, 2, 3. */
  lemma Samples8Bit()
    ensures GetSamples(8, [1, 2, 3]) == Ok([1, 2, 3])
  {
    assert EncodeSamples([1, 2, 3], 1) == [1, 2, 3];
    SamplesRoundTrip([1, 2, 3], 1, []);
    assert [1, 2, 3] + [] == [1, 2, 3];
  }

  /** 16-bit samples: [1, 0, 2, 0] reads as 1, 2. */
  lemma Samples16Bit()
    ensures GetSamples(16, [0x01, 0x00, 0x02, 0x00]) == Ok([1, 2])
  {
    assert EncodeSamples([1, 2], 2) == [0x01, 0x00, 0x02, 0x00];
    SamplesRoundTrip([1, 2], 2, []);
    assert EncodeSamples([1, 2], 2) + [] == [0x01, 0x00, 0x02, 0x00];
  }

  /** A trailing partial sample is ignored: [1, 0, 0xFF] at 16 bits reads as 1. */
  lemma SamplesIgnoreIncompleteTail()
    ensures GetSamples(16, [0x01, 0x00, 0xFF]) == Ok([1])
  {
    assert EncodeSamples([1], 2) == [0x01, 0x00];
    SamplesRoundTrip([1], 2, [0xFF]);
    assert EncodeSamples([1], 2) + [0xFF] == [0x01, 0x00, 0xFF];
  }

  /** 24-bit samples: [1, 0, 0, 2, 0, 0] reads as 1, 2. */
  lemma Samples24Bit()
    ensures GetSamples(24, [0x01, 0x00, 0x00, 0x02, 0x00, 0x00]) == Ok([1, 2])
  {
    assert Pow256(3) == 0x100_0000;
    TwosComplementOfUnsigned(1, 3);
    TwosComplementOfUnsigned(2, 3);
    assert EncodeSamples([1, 2], 3) == [0x01, 0x00, 0x00] + [0x02, 0x00, 0x00] + [];
    SamplesRoundTrip([1, 2], 3, []);
    assert EncodeSamples([1, 2], 3) + [] == [0x01, 0x00, 0x00, 0x02, 0x00, 0x00];
  }

  /** 32-bit samples are signed: the Int32 bytes of 123456 and -7890 read back as those values. */
  lemma Samples32BitSigned()
    ensures GetSamples(32, [0x40, 0xE2, 0x01, 0x00, 0x2E, 0xE1, 0xFF, 0xFF]) == Ok([123456, -7890])
  {
    Int32TestBytes();
    var body := [0x40, 0xE2, 0x01, 0x00, 0x2E, 0xE1, 0xFF, 0xFF];
    assert EncodeSamples([123456, -7890], 4) == [0x40, 0xE2, 0x01, 0x00] + [0x2E, 0xE1, 0xFF, 0xFF] + [];
    assert EncodeSamples([123456, -7890], 4) + [] == body;
    SamplesRoundTrip([123456, -7890], 4, []);
  }

  /** The four-byte two's-complement patterns of 123456 and -7890 (what BitConverter.GetBytes writes). */
  lemma Int32TestBytes()
    ensures ToLE(TwosComplement(123456, 4), 4) == [0x40, 0xE2, 0x01, 0x00]
    ensures ToLE(TwosComplement(-7890, 4), 4) == [0x2E, 0xE1, 0xFF, 0xFF]
  {
    assert Pow256(4) == 0x1_0000_0000;
    TwosComplementOfUnsigned(123456, 4);
    LemmaDivModUnique(-7890, Pow256(4), -1, 0xFFFF_E12E);
    assert ToLE(0xFFFF_E12E, 4) == [0x2E] + ToLE(0xFFFF_E1, 3);
    assert ToLE(0xFFFF_E1, 3) == [0xE1] + ToLE(0xFFFF, 2);
  }

  /** A 40-bit width is out of range. */
  lemma Samples40BitRejected(body: Bytes)
    ensures GetSamples(40, body) == Err(SampleSizeOutOfRange)
  {
  }
}
