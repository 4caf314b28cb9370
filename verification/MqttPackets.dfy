/** PUBLISH and SUBSCRIBE packets (MQTT 3.1.1, sections 3.3 and 3.8): what the
    client writes, what the server reads, and that the second undoes the first. */
module MqttPackets {
  import opened Bytes
  import opened MqttLength
  import opened MqttWire
  import opened Wrappers

  const PUBLISH: nat := 3
  const SUBSCRIBE: nat := 8
  const BUFFER_TOO_SHORT: int := -2

  function Bit(b: bool): nat { if b then 1 else 0 }

  /** The fixed header, MQTTHeader: type, DUP flag, QoS, RETAIN flag. */
  function HeaderByte(kind: nat, dup: bool, qos: nat, retained: bool): Byte
    requires kind < 16 && qos < 4
  {
    16 * kind + 8 * Bit(dup) + 2 * qos + Bit(retained)
  }

  lemma HeaderBits(kind: nat, dup: bool, qos: nat, retained: bool)
    requires kind < 16 && qos < 4
    ensures var h := HeaderByte(kind, dup, qos, retained);
            h / 16 == kind && (h / 8 % 2 == 1 <==> dup) && h / 2 % 4 == qos && (h % 2 == 1 <==> retained)
  {
  }

  lemma HeaderParts(h: Byte)
    ensures h == HeaderByte(h / 16, h / 8 % 2 == 1, h / 2 % 4, h % 2 == 1)
  {
    var a, b := h / 2, h / 8;
    assert h == 2 * a + h % 2 && a == 4 * b + a % 4 && b == 2 * (h / 16) + b % 2;
  }

  function PacketBytes(header: Byte, body: seq<Byte>): (r: seq<Byte>)
    ensures |r| == ExactLen(|body|)
  {
    [header] + EncodeLength(|body|) + body
  }

  /** Where the body of the packet at the front of a buffer lies, and how many bytes the code takes
      its length field for: five when all four announce another. */
  datatype Frame = Frame(at: nat, end: nat, lengthBytes: nat)

  function FrameOf(data: seq<Byte>): (f: Frame)
    requires ScanLength(data, 1) != More
    ensures f.at == 1 + f.lengthBytes && f.at <= f.end && 1 <= f.lengthBytes
  {
    match ScanLength(data, 1)
    case Done(n) => Frame(1 + n, 1 + n + ValueOf(data[1..1 + n]), n)
    case Bad => Frame(6, 6 + ValueOf(data[1..5]), 5)
  }

  /** The buffer holds the packet that its length field announces, as the callers promise. */
  ghost predicate HoldsPacket(data: seq<Byte>) {
    HoldsLength(data) && FrameOf(data).end <= |data|
  }

  ghost predicate HoldsLength(data: seq<Byte>) {
    |data| > 0 && ScanLength(data, 1) != More
  }

  lemma FrameRoundTrip(header: Byte, body: seq<Byte>, rest: seq<Byte>)
    requires |body| < LENGTH_LIMIT
    ensures var data := PacketBytes(header, body) + rest;
            var n := |EncodeLength(|body|)|;
            && HoldsPacket(data) && data[0] == header
            && FrameOf(data) == Frame(1 + n, 1 + n + |body|, n)
            && data[1 + n..1 + n + |body|] == body
  {
    var data := PacketBytes(header, body) + rest;
    var e := EncodeLength(|body|);
    assert data[1..1 + |e|] == e;
    LengthRoundTrip(|body|, data, 1);
  }

  /** MQTTPacket_decodeBuf on the bytes behind the header. */
  method DecodeBuf(buf: array<Byte>) returns (lengthBytes: nat, value: nat)
    requires HoldsLength(buf[..])
    ensures lengthBytes == FrameOf(buf[..]).lengthBytes && 1 + lengthBytes + value == FrameOf(buf[..]).end
  {
    hide ValueOf, Power128;
    ValueOfNothing();
    ghost var data := buf[..];
    value, lengthBytes := 0, 0;
    var multiplier: nat := 1;
    assert data[1..1] == [];
    while true
      invariant lengthBytes <= MAX_LENGTH_BYTES && 1 + lengthBytes <= |data|
      invariant multiplier == Power128(lengthBytes) && value == ValueOf(data[1..1 + lengthBytes])
      invariant ScanLength(data, 1, lengthBytes) == ScanLength(data, 1)
      decreases MAX_LENGTH_BYTES - lengthBytes
    {
      lengthBytes := lengthBytes + 1;
      if lengthBytes > MAX_LENGTH_BYTES { break; }
      var c := buf[lengthBytes];
      assert data[1..1 + lengthBytes] == data[1..lengthBytes] + [c];
      ValueOfSnoc(data[1..lengthBytes], c);
      value := value + c % 128 * multiplier;
      multiplier := multiplier * 128;
      if c < 128 { break; }
    }
  }

  // ---------------------------------------------------------------------------------------------
  // PUBLISH

  datatype Publish = Publish(dup: bool, qos: nat, retained: bool, packetId: nat, topic: seq<Byte>, payload: seq<Byte>) {
    // Flags and sizes fit their wire fields, and a QoS 0 message has no identifier.
    predicate Valid() {
      && qos <= 2 && packetId <= 65535 && (qos == 0 ==> packetId == 0) && |topic| <= MAX_STRING
      && |this.Body()| < LENGTH_LIMIT
    }

    function Body(): (b: seq<Byte>)
      requires packetId <= 65535 && |topic| <= MAX_STRING
      ensures |b| == PublishLength(qos, |topic|, |payload|)
    {
      StringBytes(topic) + (if qos > 0 then IntBytes(packetId) else []) + payload
    }

    function Bytes(): seq<Byte>
      requires Valid()
    {
      PacketBytes(HeaderByte(PUBLISH, dup, qos, retained), Body())
    }
  }

  /** MQTTSerialize_publishLength. */
  function PublishLength(qos: nat, topicLength: nat, payloadLength: nat): nat {
    2 + topicLength + payloadLength + if qos > 0 then 2 else 0
  }

  /** What MQTTDeserialize_publish makes of a buffer: its return code, and what it has stored if it
      got to the end.  The payload is a pointer and a length, negative when the identifier did not
      fit the packet. */
  datatype PublishRead = PublishRead(rc: int, stored: Option<PublishFields>)
  datatype PublishFields = PublishFields(dup: bool, qos: nat, retained: bool, packetId: nat, topic: seq<Byte>,
                                         payloadAt: nat, payloadLength: int)

  /** The code reads the identifier without asking whether the packet has room for it; the buffer
      must. */
  ghost predicate PublishReadable(data: seq<Byte>) {
    && HoldsPacket(data)
    && var r := ReadString(data, FrameOf(data).at, FrameOf(data).end);
       data[0] / 16 == PUBLISH && data[0] / 2 % 4 > 0 && r.Some? ==> r.value.1 + 2 <= |data|
  }

  function DecodePublish(data: seq<Byte>): PublishRead
    requires PublishReadable(data)
  {
    var h := data[0];
    if h / 16 != PUBLISH then PublishRead(0, None)
    else
      var f := FrameOf(data);
      var qos := h / 2 % 4;
      match ReadString(data, f.at, f.end)
      case None => PublishRead(f.lengthBytes, None)
      case Some((topic, at)) =>
        var body := if qos > 0 then at + 2 else at;
        PublishRead(1, Some(PublishFields(h / 8 % 2 == 1, qos, h % 2 == 1,
                                          if qos > 0 then IntOf(data, at) else 0,
                                          topic, body, f.end - body)))
  }

  /** The buffer starts with this message, in a length field of at most four bytes. */
  ghost predicate IsPublish(data: seq<Byte>, p: Publish)
    requires HoldsPacket(data)
  {
    && p.Valid() && FrameOf(data).lengthBytes <= MAX_LENGTH_BYTES
    && data[0] == HeaderByte(PUBLISH, p.dup, p.qos, p.retained)
    && data[FrameOf(data).at..FrameOf(data).end] == p.Body()
  }

  /** A message is read as what it is, however its length is encoded and whatever follows it. */
  lemma PublishIsRead(data: seq<Byte>, p: Publish)
    requires HoldsPacket(data) && IsPublish(data, p)
    ensures var at := FrameOf(data).end - |p.payload|;
            && PublishReadable(data)
            && DecodePublish(data) == PublishRead(1, Some(PublishFields(p.dup, p.qos, p.retained, p.packetId, p.topic,
                                                                        at, |p.payload|)))
            && data[at..at + |p.payload|] == p.payload
  {
    hide FrameOf, HeaderByte, ScanLength, StringBytes, IntBytes, IntOf, ReadString;
    var body := p.Body();
    HeaderBits(PUBLISH, p.dup, p.qos, p.retained);
    var at, n := FrameOf(data).at, 2 + |p.topic|;
    SliceOf(data, at, body, 0, n);
    assert body[..n] == StringBytes(p.topic);
    StringRoundTrip(p.topic, data, at, at + |body|);
    if p.qos > 0 {
      SliceOf(data, at, body, n, n + 2);
      IntRoundTrip(p.packetId, data, at + n);
      SliceOf(data, at, body, n + 2, |body|);
    } else {
      SliceOf(data, at, body, n, |body|);
    }
  }

  /** Reading a serialized message back gives the message, whatever follows it in the buffer. */
  lemma PublishRoundTrip(p: Publish, rest: seq<Byte>)
    requires p.Valid()
    ensures var data := p.Bytes() + rest;
            var at := |p.Bytes()| - |p.payload|;
            && PublishReadable(data)
            && DecodePublish(data) == PublishRead(1, Some(PublishFields(p.dup, p.qos, p.retained, p.packetId, p.topic,
                                                                        at, |p.payload|)))
            && data[at..at + |p.payload|] == p.payload
  {
    hide FrameOf, HeaderByte, PacketBytes, DecodePublish, PublishReadable;
    FrameRoundTrip(HeaderByte(PUBLISH, p.dup, p.qos, p.retained), p.Body(), rest);
    EncodedSize(|p.Body()|);
    PublishIsRead(p.Bytes() + rest, p);
  }

  /** The body that the decoder has found to consist of a topic, an identifier if there must be one,
      and a payload is the body of a message. */
  lemma PublishParts(data: seq<Byte>) returns (p: Publish)
    requires HoldsPacket(data) && data[0] / 16 == PUBLISH && data[0] / 2 % 4 != 3
    requires FrameOf(data).lengthBytes <= MAX_LENGTH_BYTES
    requires var r := ReadString(data, FrameOf(data).at, FrameOf(data).end);
             r.Some? && (data[0] / 2 % 4 > 0 ==> r.value.1 + 2 <= FrameOf(data).end)
    ensures IsPublish(data, p)
  {
    hide FrameOf, ScanLength, ReadString, StringBytes, IntBytes, IntOf, HeaderByte;
    var f := FrameOf(data);
    BodyIsShort(data);
    HeaderParts(data[0]);
    var (topic, next) := ReadString(data, f.at, f.end).value;
    ReadIsBytes(data, f.at, f.end);
    var qos := data[0] / 2 % 4;
    var payload := data[if qos > 0 then next + 2 else next..f.end];
    var id := if qos > 0 then IntOf(data, next) else 0;
    p := Publish(data[0] / 8 % 2 == 1, qos, data[0] % 2 == 1, id, topic, payload);
    if qos > 0 {
      IntIsBytes(data, next);
      Slices(data, f.at, next, next + 2);
      Slices(data, f.at, next + 2, f.end);
      assert p.Body() == data[f.at..f.end];
    } else {
      Slices(data, f.at, next, f.end);
      assert StringBytes(topic) + [] == StringBytes(topic);
      assert p.Body() == data[f.at..f.end];
    }
  }

  lemma BodyIsShort(data: seq<Byte>)
    requires HoldsPacket(data) && FrameOf(data).lengthBytes <= MAX_LENGTH_BYTES
    ensures FrameOf(data).end - FrameOf(data).at < LENGTH_LIMIT
  {
    ReencodedIsShort(data[1..FrameOf(data).at]);
  }

  lemma IntIsBytes(data: seq<Byte>, at: nat)
    requires at + 2 <= |data|
    ensures IntOf(data, at) <= 65535 && data[at..at + 2] == IntBytes(IntOf(data, at))
  {
  }

  /** The header comment promises that 1 means success, and a message is always answered with 1. But 1
      is also the answer to what is no message: to a topic that overruns the packet, if the length
      field is a single byte; and otherwise to a length field of more than four bytes, to the QoS 3 that
      does not exist, and to a packet without room for its identifier. */
  lemma PublishReturnCode(data: seq<Byte>)
    requires PublishReadable(data)
    ensures (exists p :: IsPublish(data, p)) ==> DecodePublish(data).rc == 1
    ensures DecodePublish(data).rc == 1 && !(exists p :: IsPublish(data, p)) <==>
              && data[0] / 16 == PUBLISH
              && var f, qos := FrameOf(data), data[0] / 2 % 4;
                 match ReadString(data, f.at, f.end)
                 case None => f.lengthBytes == 1
                 case Some((_, next)) => f.lengthBytes > MAX_LENGTH_BYTES || qos == 3 || (qos > 0 && f.end < next + 2)
  {
    hide ScanLength, IntOf, StringBytes;
    if exists p :: IsPublish(data, p) {
      var p :| IsPublish(data, p);
      PublishIsRead(data, p);
      HeaderBits(PUBLISH, p.dup, p.qos, p.retained);
    } else if data[0] / 16 == PUBLISH && DecodePublish(data).stored.Some? {
      var f, qos := FrameOf(data), data[0] / 2 % 4;
      var next := ReadString(data, f.at, f.end).value.1;
      if f.lengthBytes <= MAX_LENGTH_BYTES && qos != 3 && (qos > 0 ==> next + 2 <= f.end) {
        var p := PublishParts(data);
      }
    }
  }

  /** Two bytes that claim to be a PUBLISH with nothing in it: the code answers 1. */
  lemma MalformedPublishLooksFine()
    ensures PublishReadable([0x30, 0]) && DecodePublish([0x30, 0]) == PublishRead(1, None)
  {
    var data: seq<Byte> := [0x30, 0];
    assert ScanLength(data, 1) == Done(1);
    assert data[1..2] == [0] + [];
    ValueOfCons(0, []);
  }

  /** A PUBLISH of QoS 1 with an empty topic and no identifier: the code takes the identifier from
      behind the packet, answers 1 and reports a payload of -2 bytes. */
  lemma IdentifierBehindPublish()
    ensures var data := [0x32, 2, 0, 0, 9, 9];
            PublishReadable(data) &&
            DecodePublish(data) == PublishRead(1, Some(PublishFields(false, 1, false, 0x0909, [], 6, -2)))
  {
    var data: seq<Byte> := [0x32, 2, 0, 0, 9, 9];
    assert ScanLength(data, 1) == Done(1);
    assert data[1..2] == [2] + [];
    ValueOfCons(2, []);
    assert ReadString(data, 2, 4) == Some(([], 4));
  }

  method SerializePublish(buf: array<Byte>, dup: bool, qos: nat, retained: bool, packetId: nat,
                          topicName: MqttString, payload: seq<Byte>)
    returns (rc: int)
    requires topicName.Valid() && Publish(dup, qos, retained, packetId, topicName.Content(), payload).Valid()
    modifies buf
    ensures var p := Publish(dup, qos, retained, packetId, topicName.Content(), payload);
            if PacketLen(|p.Body()|) > buf.Length
            then rc == -2 && buf[..] == old(buf[..])
            else (rc == |p.Bytes()| == ExactLen(|p.Body()|) <= PacketLen(|p.Body()|) &&
                  Wrote(old(buf[..]), buf[..], 0, p.Bytes()))
  {
    hide Wrote, EncodeLength, HeaderByte;
    ghost var p := Publish(dup, qos, retained, packetId, topicName.Content(), payload);
    PacketLenIsEnough(|p.Body()|);
    topicName.LengthOfContent();
    var remaining := PublishLength(qos, topicName.Length(), |payload|);
    if PacketLen(remaining) > buf.Length {
      return BUFFER_TOO_SHORT;
    }
    var at := StartPacket(buf, HeaderByte(PUBLISH, dup, qos, retained), remaining);
    ghost var b1 := buf[..];
    rc := WritePublishBody(buf, at, qos, packetId, topicName, payload);
    WroteBoth(old(buf[..]), b1, buf[..], 0,
              [HeaderByte(PUBLISH, dup, qos, retained)] + EncodeLength(remaining), p.Body());
  }

  method WritePublishBody(buf: array<Byte>, at: nat, qos: nat, packetId: nat, topicName: MqttString, payload: seq<Byte>)
    returns (next: nat)
    requires topicName.Valid() && packetId <= 65535
    requires at + PublishLength(qos, |topicName.Content()|, |payload|) <= buf.Length
    modifies buf
    ensures var body := Publish(false, qos, false, packetId, topicName.Content(), payload).Body();
            next == at + |body| && Wrote(old(buf[..]), buf[..], at, body)
  {
    hide Wrote, StringBytes, IntBytes;
    ghost var x := StringBytes(topicName.Content());
    next := WriteString(buf, at, topicName);
    if qos > 0 {
      ghost var b1 := buf[..];
      next := WriteInt(buf, next, packetId);
      WroteBoth(old(buf[..]), b1, buf[..], at, x, IntBytes(packetId));
      x := x + IntBytes(packetId);
    } else {
      assert x == x + [];
    }
    ghost var b2 := buf[..];
    next := WriteBytes(buf, next, payload);
    WroteBoth(old(buf[..]), b2, buf[..], at, x, payload);
  }

  /** The header byte and the length field. */
  method StartPacket(buf: array<Byte>, header: Byte, remaining: nat) returns (at: nat)
    requires 1 + |EncodeLength(remaining)| <= buf.Length
    modifies buf
    ensures at == 1 + |EncodeLength(remaining)|
    ensures Wrote(old(buf[..]), buf[..], 0, [header] + EncodeLength(remaining))
  {
    at := WriteChar(buf, 0, header);
    ghost var b1 := buf[..];
    var size := Encode(buf, at, remaining);
    at := at + size;
    WroteBoth(old(buf[..]), b1, buf[..], 0, [header], EncodeLength(remaining));
  }

  method DeserializePublish(buf: array<Byte>)
    returns (rc: int, stored: bool, dup: bool, qos: nat, retained: bool, packetId: nat,
             topicName: seq<Byte>, payload: nat, payloadLength: int)
    requires PublishReadable(buf[..])
    ensures var fields := PublishFields(dup, qos, retained, packetId, topicName, payload, payloadLength);
            DecodePublish(buf[..]) == PublishRead(rc, if stored then Some(fields) else None)
  {
    hide ScanLength, ValueOf;
    rc, stored, dup, qos, retained := 0, false, false, 0, false;
    packetId, topicName, payload, payloadLength := 0, [], 0, 0;
    var header := buf[0];
    if header / 16 != PUBLISH { return; }
    dup, qos, retained := header / 8 % 2 == 1, header / 2 % 4, header % 2 == 1;
    var lengthBytes, mylen := DecodeBuf(buf);
    rc := lengthBytes;
    var curdata := 1 + rc;
    var enddata := curdata + mylen;
    var ok;
    ok, topicName, curdata := ReadLenString(buf, curdata, enddata);
    if !ok { return; }
    if qos > 0 {
      packetId := 256 * (buf[curdata] as nat) + buf[curdata + 1];
      curdata := curdata + 2;
    }
    payloadLength := enddata - curdata;
    payload := curdata;
    rc, stored := 1, true;
  }

  // ---------------------------------------------------------------------------------------------
  // SUBSCRIBE

  datatype Filter = Filter(topic: seq<Byte>, qos: Byte) {
    function Bytes(): (b: seq<Byte>)
      requires |topic| <= MAX_STRING
      ensures |b| == 3 + |topic|
    {
      StringBytes(topic) + [qos]
    }
  }

  predicate Short(filters: seq<Filter>) {
    forall i | 0 <= i < |filters| :: |filters[i].topic| <= MAX_STRING
  }

  function FilterBytes(filters: seq<Filter>): seq<Byte>
    requires Short(filters)
  {
    if |filters| == 0 then [] else filters[0].Bytes() + FilterBytes(filters[1..])
  }

  lemma {:induction false} FilterBytesSnoc(filters: seq<Filter>, f: Filter)
    requires Short(filters) && |f.topic| <= MAX_STRING
    ensures Short(filters + [f]) && FilterBytes(filters + [f]) == FilterBytes(filters) + f.Bytes()
  {
    if |filters| == 0 {
      assert filters + [f] == [f];
      assert FilterBytes([f]) == f.Bytes() + FilterBytes([]);
    } else {
      FilterBytesSnoc(filters[1..], f);
      assert (filters + [f])[1..] == filters[1..] + [f];
    }
  }

  /** The filters found between `at` and `end`, up to the first one that is cut short. */
  function ReadFilters(data: seq<Byte>, at: nat, end: nat): (r: (seq<Filter>, bool))
    requires end <= |data|
    ensures Short(r.0)
    decreases end - at
  {
    if end <= at then ([], true)
    else match ReadString(data, at, end)
      case None => ([], false)
      case Some((topic, next)) =>
        if end <= next then ([], false)
        else
          var (filters, complete) := ReadFilters(data, next + 1, end);
          ([Filter(topic, data[next])] + filters, complete)
  }

  lemma {:induction false} FiltersRoundTrip(filters: seq<Filter>, data: seq<Byte>, at: nat, end: nat)
    requires Short(filters) && at + |FilterBytes(filters)| == end <= |data|
    requires data[at..end] == FilterBytes(filters)
    ensures ReadFilters(data, at, end) == (filters, true)
    decreases |filters|
  {
    hide StringBytes, ReadString, ReadFilters;
    ReadFiltersStep(data, at, end);
    if |filters| > 0 {
      var f, whole := filters[0], FilterBytes(filters);
      var n := 2 + |f.topic|;
      assert |StringBytes(f.topic)| == n;
      SliceOf(data, at, whole, 0, n);
      assert whole[..n] == StringBytes(f.topic);
      StringRoundTrip(f.topic, data, at, end);
      SliceOf(data, at, whole, n, n + 1);
      assert data[at + n] == data[at + n..at + n + 1][0] == f.qos;
      SliceOf(data, at, whole, n + 1, |whole|);
      assert whole[n + 1..] == FilterBytes(filters[1..]);
      FiltersRoundTrip(filters[1..], data, at + n + 1, end);
      var read := ReadFilters(data, at, end).0;
      assert read == [read[0]] + read[1..] && filters == [f] + filters[1..];
    }
  }

  datatype Subscribe = Subscribe(dup: bool, packetId: nat, filters: seq<Filter>) {
    predicate Valid() {
      packetId <= 65535 && Short(filters) && |this.Body()| < LENGTH_LIMIT
    }

    function Body(): seq<Byte>
      requires packetId <= 65535 && Short(filters)
    {
      IntBytes(packetId) + FilterBytes(filters)
    }

    function Bytes(): seq<Byte>
      requires Valid()
    {
      PacketBytes(HeaderByte(SUBSCRIBE, dup, 1, false), Body())
    }
  }

  datatype SubscribeRead = SubscribeRead(rc: int, dup: bool, packetId: nat, filters: seq<Filter>, complete: bool)

  /** The packet identifier is read without asking whether the packet has room for it. */
  ghost predicate IdReadable(data: seq<Byte>) {
    HoldsPacket(data) && FrameOf(data).at + 2 <= |data|
  }

  function DecodeSubscribe(data: seq<Byte>): SubscribeRead
    requires IdReadable(data)
  {
    if data[0] / 16 != SUBSCRIBE then SubscribeRead(-1, false, 0, [], false)
    else
      var f := FrameOf(data);
      var (filters, complete) := ReadFilters(data, f.at + 2, f.end);
      SubscribeRead(if complete then 1 else f.lengthBytes, data[0] / 8 % 2 == 1, IntOf(data, f.at), filters, complete)
  }

  /** The buffer starts with this request, in a length field of at most four bytes. (The lower flag
      bits are not looked at.) */
  ghost predicate IsSubscribe(data: seq<Byte>, s: Subscribe)
    requires HoldsPacket(data)
  {
    && s.Valid() && FrameOf(data).lengthBytes <= MAX_LENGTH_BYTES
    && data[0] / 16 == SUBSCRIBE && (data[0] / 8 % 2 == 1 <==> s.dup)
    && data[FrameOf(data).at..FrameOf(data).end] == s.Body()
  }

  lemma SubscribeIsRead(data: seq<Byte>, s: Subscribe)
    requires HoldsPacket(data) && IsSubscribe(data, s)
    ensures IdReadable(data) && DecodeSubscribe(data) == SubscribeRead(1, s.dup, s.packetId, s.filters, true)
  {
    hide FrameOf, ScanLength, IntBytes, IntOf, FilterBytes, ReadFilters;
    var body := s.Body();
    var at := FrameOf(data).at;
    SliceOf(data, at, body, 0, 2);
    assert body[..2] == IntBytes(s.packetId);
    IntRoundTrip(s.packetId, data, at);
    SliceOf(data, at, body, 2, |body|);
    assert body[2..] == FilterBytes(s.filters);
    FiltersRoundTrip(s.filters, data, at + 2, at + |body|);
  }

  lemma SubscribeRoundTrip(s: Subscribe, rest: seq<Byte>)
    requires s.Valid()
    ensures var data := s.Bytes() + rest;
            IdReadable(data) && DecodeSubscribe(data) == SubscribeRead(1, s.dup, s.packetId, s.filters, true)
  {
    hide FrameOf, HeaderByte, PacketBytes, DecodeSubscribe, IdReadable;
    FrameRoundTrip(HeaderByte(SUBSCRIBE, s.dup, 1, false), s.Body(), rest);
    HeaderBits(SUBSCRIBE, s.dup, 1, false);
    EncodedSize(|s.Body()|);
    SubscribeIsRead(s.Bytes() + rest, s);
  }

  /** A list that reads to its end is what was written for these filters. */
  lemma {:induction false} FiltersAreBytes(data: seq<Byte>, at: nat, end: nat)
    requires at <= end <= |data| && ReadFilters(data, at, end).1
    ensures data[at..end] == FilterBytes(ReadFilters(data, at, end).0)
    decreases end - at
  {
    hide StringBytes, ReadString, ReadFilters;
    ReadFiltersStep(data, at, end);
    if at < end {
      var (topic, next) := ReadString(data, at, end).value;
      var filters := ReadFilters(data, at, end).0;
      ReadIsBytes(data, at, end);
      FiltersAreBytes(data, next + 1, end);
      assert data[at..end] == data[at..next] + [data[next]] + data[next + 1..end];
      assert filters[0].Bytes() == data[at..next] + [data[next]];
    }
  }

  lemma SubscribeParts(data: seq<Byte>) returns (s: Subscribe)
    requires IdReadable(data) && data[0] / 16 == SUBSCRIBE && FrameOf(data).lengthBytes <= MAX_LENGTH_BYTES
    requires FrameOf(data).at + 2 <= FrameOf(data).end
    requires ReadFilters(data, FrameOf(data).at + 2, FrameOf(data).end).1
    ensures IsSubscribe(data, s)
  {
    hide FrameOf, ScanLength, ReadFilters, IntBytes, IntOf, FilterBytes;
    var f := FrameOf(data);
    BodyIsShort(data);
    FiltersAreBytes(data, f.at + 2, f.end);
    IntIsBytes(data, f.at);
    s := Subscribe(data[0] / 8 % 2 == 1, IntOf(data, f.at), ReadFilters(data, f.at + 2, f.end).0);
    Slices(data, f.at, f.at + 2, f.end);
    assert s.Body() == data[f.at..f.end];
  }

  /** These bytes are those of some list of filters. */
  ghost predicate AreFilters(bytes: seq<Byte>) {
    exists filters :: Short(filters) && FilterBytes(filters) == bytes
  }

  // The decoder reads to the end exactly what some list has been written as.
  lemma ReadsFilters(data: seq<Byte>, at: nat, end: nat)
    requires at <= end <= |data|
    ensures ReadFilters(data, at, end).1 <==> AreFilters(data[at..end])
  {
    hide FilterBytes, ReadFilters;
    if ReadFilters(data, at, end).1 { FiltersAreBytes(data, at, end); }
    if AreFilters(data[at..end]) {
      var filters :| Short(filters) && FilterBytes(filters) == data[at..end];
      FiltersRoundTrip(filters, data, at, end);
    }
  }

  /** A request is always answered with 1. As for PUBLISH, 1 is also the answer to what is none: to a list
      that is cut short, if the length field is a single byte; and otherwise to a length field of more
      than four bytes, and to a packet without room for its identifier. */
  lemma SubscribeReturnCode(data: seq<Byte>)
    requires IdReadable(data)
    ensures (exists s :: IsSubscribe(data, s)) ==> DecodeSubscribe(data).rc == 1
    ensures DecodeSubscribe(data).rc == 1 && !(exists s :: IsSubscribe(data, s)) <==>
              && data[0] / 16 == SUBSCRIBE
              && var f := FrameOf(data);
                 f.end < f.at + 2 ||
                 if AreFilters(data[f.at + 2..f.end]) then f.lengthBytes > MAX_LENGTH_BYTES else f.lengthBytes == 1
  {
    hide FrameOf, ScanLength, ReadFilters, IntOf, FilterBytes, AreFilters;
    var at, end := FrameOf(data).at + 2, FrameOf(data).end;
    if at <= end { ReadsFilters(data, at, end); }
    ReadFiltersStep(data, at, end);
    if exists s :: IsSubscribe(data, s) {
      var s :| IsSubscribe(data, s);
      SubscribeIsRead(data, s);
    } else if DecodeSubscribe(data).complete && data[0] / 16 == SUBSCRIBE {
      var f := FrameOf(data);
      if f.lengthBytes <= MAX_LENGTH_BYTES && f.at + 2 <= f.end {
        var s := SubscribeParts(data);
      }
    }
  }

  /** A SUBSCRIBE with nothing in it: the code takes the identifier from behind the packet and answers 1. */
  lemma IdentifierBehindSubscribe()
    ensures var data := [0x82, 0, 7, 7];
            IdReadable(data) && DecodeSubscribe(data) == SubscribeRead(1, false, 0x0707, [], true)
  {
    var data: seq<Byte> := [0x82, 0, 7, 7];
    assert ScanLength(data, 1) == Done(1);
    assert data[1..2] == [0] + [];
    ValueOfCons(0, []);
  }

  predicate AllValid(topics: seq<MqttString>) {
    forall i | 0 <= i < |topics| :: topics[i].Valid()
  }

  function Filters(topics: seq<MqttString>, qoss: seq<Byte>): (fs: seq<Filter>)
    requires |topics| == |qoss| && AllValid(topics)
    ensures |fs| == |topics| && Short(fs)
  {
    seq(|topics|, i requires 0 <= i < |topics| => Filter(topics[i].Content(), qoss[i]))
  }

  /** MQTTSerialize_subscribeLength. */
  method SubscribeLength(topicFilters: seq<MqttString>, ghost qoss: seq<Byte>) returns (len: nat)
    requires |topicFilters| == |qoss| && AllValid(topicFilters)
    ensures len == 2 + |FilterBytes(Filters(topicFilters, qoss))|
  {
    len := 2;
    var i := 0;
    ghost var fs := Filters(topicFilters, qoss);
    while i < |topicFilters|
      invariant 0 <= i <= |topicFilters| && len == 2 + |FilterBytes(fs[..i])|
    {
      FilterBytesSnoc(fs[..i], fs[i]);
      assert fs[..i] + [fs[i]] == fs[..i + 1];
      topicFilters[i].LengthOfContent();
      len := len + 2 + topicFilters[i].Length() + 1;
      i := i + 1;
    }
    assert fs[..i] == fs;
  }

  method SerializeSubscribe(buf: array<Byte>, dup: bool, packetId: nat,
                            topicFilters: seq<MqttString>, requestedQoSs: seq<Byte>)
    returns (rc: int)
    requires |topicFilters| == |requestedQoSs| && AllValid(topicFilters)
    requires Subscribe(dup, packetId, Filters(topicFilters, requestedQoSs)).Valid()
    modifies buf
    ensures var s := Subscribe(dup, packetId, Filters(topicFilters, requestedQoSs));
            if PacketLen(|s.Body()|) > buf.Length
            then rc == -2 && buf[..] == old(buf[..])
            else rc == |s.Bytes()| <= PacketLen(|s.Body()|) && Wrote(old(buf[..]), buf[..], 0, s.Bytes())
  {
    hide Wrote, EncodeLength, HeaderByte, FilterBytes, IntBytes;
    ghost var s := Subscribe(dup, packetId, Filters(topicFilters, requestedQoSs));
    PacketLenIsEnough(|s.Body()|);
    var remaining := SubscribeLength(topicFilters, requestedQoSs);
    if PacketLen(remaining) > buf.Length {
      return BUFFER_TOO_SHORT;
    }
    var at := StartPacket(buf, HeaderByte(SUBSCRIBE, dup, 1, false), remaining);
    ghost var b1 := buf[..];
    at := WriteInt(buf, at, packetId);
    ghost var b2 := buf[..];
    rc := WriteFilters(buf, at, topicFilters, requestedQoSs);
    WroteBoth(b1, b2, buf[..], at - 2, IntBytes(packetId), FilterBytes(s.filters));
    WroteBoth(old(buf[..]), b1, buf[..], 0, [HeaderByte(SUBSCRIBE, dup, 1, false)] + EncodeLength(remaining), s.Body());
  }

  method WriteFilters(buf: array<Byte>, at: nat, topicFilters: seq<MqttString>, requestedQoSs: seq<Byte>)
    returns (next: nat)
    requires |topicFilters| == |requestedQoSs| && AllValid(topicFilters)
    requires at + |FilterBytes(Filters(topicFilters, requestedQoSs))| <= buf.Length
    modifies buf
    ensures var bytes := FilterBytes(Filters(topicFilters, requestedQoSs));
            next == at + |bytes| && Wrote(old(buf[..]), buf[..], at, bytes)
  {
    ghost var fs := Filters(topicFilters, requestedQoSs);
    next := at;
    var i := 0;
    assert FilterBytes(fs[..0]) == [];
    while i < |topicFilters|
      invariant 0 <= i <= |topicFilters| && next == at + |FilterBytes(fs[..i])| <= buf.Length
      invariant Wrote(old(buf[..]), buf[..], at, FilterBytes(fs[..i]))
    {
      hide Wrote, FilterBytes, StringBytes;
      FilterBytesSnoc(fs[..i], fs[i]);
      assert fs[..i] + [fs[i]] == fs[..i + 1];
      PrefixIsShorter(fs, i + 1);
      ghost var b0 := buf[..];
      next := WriteString(buf, next, topicFilters[i]);
      ghost var b1 := buf[..];
      next := WriteChar(buf, next, requestedQoSs[i]);
      WroteBoth(b0, b1, buf[..], next - |fs[i].Bytes()|, StringBytes(fs[i].topic), [fs[i].qos]);
      WroteBoth(old(buf[..]), b0, buf[..], at, FilterBytes(fs[..i]), fs[i].Bytes());
      i := i + 1;
    }
    assert fs[..i] == fs;
  }

  lemma {:induction false} PrefixIsShorter(filters: seq<Filter>, i: nat)
    requires Short(filters) && i <= |filters|
    ensures |FilterBytes(filters[..i])| <= |FilterBytes(filters)|
    decreases |filters| - i
  {
    if i == |filters| {
      assert filters[..i] == filters;
    } else {
      PrefixIsShorter(filters, i + 1);
      FilterBytesSnoc(filters[..i], filters[i]);
      assert filters[..i] + [filters[i]] == filters[..i + 1];
    }
  }

  /** MQTTDeserialize_subscribe.  The arrays must have room for the list: the code never looks at
      their size. */
  method DeserializeSubscribe(buf: array<Byte>, topicFilters: array<seq<Byte>>, requestedQoSs: array<Byte>)
    returns (rc: int, dup: bool, packetId: nat, count: nat)
    requires IdReadable(buf[..]) && requestedQoSs != buf
    requires var r := DecodeSubscribe(buf[..]);
             |r.filters| + (if r.complete then 0 else 1) <= topicFilters.Length && |r.filters| <= requestedQoSs.Length
    modifies topicFilters, requestedQoSs
    ensures var r := DecodeSubscribe(buf[..]);
            && rc == r.rc && dup == r.dup && packetId == r.packetId
            && count == |r.filters| && Holds(topicFilters[..], requestedQoSs[..], r.filters, count)
  {
    hide ScanLength, ValueOf, ReadFilters;
    rc, dup, packetId, count := -1, false, 0, 0;
    var header := buf[0];
    if header / 16 != SUBSCRIBE { return; }
    dup := header / 8 % 2 == 1;
    var lengthBytes, mylen := DecodeBuf(buf);
    rc := lengthBytes;
    var curdata := 1 + rc;
    var enddata := curdata + mylen;
    packetId := 256 * (buf[curdata] as nat) + buf[curdata + 1];
    curdata := curdata + 2;
    var complete;
    complete, count := ReadFilterList(buf, curdata, enddata, topicFilters, requestedQoSs);
    if !complete { return; }
    rc := 1;
  }

  /** The loop of MQTTDeserialize_subscribe. */
  method ReadFilterList(buf: array<Byte>, from: nat, enddata: nat,
                        topicFilters: array<seq<Byte>>, requestedQoSs: array<Byte>)
    returns (complete: bool, count: nat)
    requires enddata <= buf.Length && requestedQoSs != buf
    requires var (filters, complete) := ReadFilters(buf[..], from, enddata);
             |filters| + (if complete then 0 else 1) <= topicFilters.Length && |filters| <= requestedQoSs.Length
    modifies topicFilters, requestedQoSs
    ensures buf[..] == old(buf[..])
    ensures var (filters, all) := ReadFilters(buf[..], from, enddata);
            complete == all && count == |filters| && Holds(topicFilters[..], requestedQoSs[..], filters, count)
  {
    hide ReadFilters, ReadString;
    ghost var data := buf[..];
    ghost var all := ReadFilters(data, from, enddata);
    var curdata := from;
    count := 0;
    while curdata < enddata
      invariant buf[..] == data && count <= |all.0|
      invariant ReadFilters(data, curdata, enddata) == (all.0[count..], all.1)
      invariant Holds(topicFilters[..], requestedQoSs[..], all.0, count)
      decreases enddata - curdata
    {
      ReadFiltersStep(data, curdata, enddata);
      var ok, topic, next := ReadLenString(buf, curdata, enddata);
      if !ok { return false, count; }
      topicFilters[count] := topic;
      curdata := next;
      if curdata >= enddata { return false, count; }
      requestedQoSs[count] := buf[curdata];
      curdata := curdata + 1;
      assert all.0[count] == all.0[count..][0] && all.0[count..][1..] == all.0[count + 1..];
      count := count + 1;
    }
    ReadFiltersStep(data, curdata, enddata);
    complete := true;
  }

  lemma ReadFiltersStep(data: seq<Byte>, at: nat, end: nat)
    requires end <= |data|
    ensures var (filters, complete) := ReadFilters(data, at, end);
            if end <= at then filters == [] && complete
            else match ReadString(data, at, end)
              case None => filters == [] && !complete
              case Some((topic, next)) =>
                if end <= next then filters == [] && !complete
                else |filters| > 0 && filters[0] == Filter(topic, data[next])
                     && ReadFilters(data, next + 1, end) == (filters[1..], complete)
  {
  }

  /** The first `count` entries of the output arrays are the first `count` filters. */
  predicate Holds(topics: seq<seq<Byte>>, qoss: seq<Byte>, filters: seq<Filter>, count: nat) {
    && count <= |topics| && count <= |qoss| && count <= |filters|
    && forall i | 0 <= i < count :: filters[i] == Filter(topics[i], qoss[i])
  }
}
