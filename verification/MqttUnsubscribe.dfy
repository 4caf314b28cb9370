/** UNSUBSCRIBE packets (MQTT/MQTTUnsubscribeClient.c, MQTT/MQTTUnsubscribeServer.c; MQTT 3.1.1,
    section 3.10): a packet identifier and topic filters up to the end of the packet. */
module MqttUnsubscribe {
  import opened Bytes
  import opened MqttLength
  import opened MqttPackets
  import opened MqttWire

  const UNSUBSCRIBE: nat := 10

  predicate ShortTopics(topics: seq<seq<Byte>>) {
    forall i | 0 <= i < |topics| :: |topics[i]| <= MAX_STRING
  }

  function TopicBytes(topics: seq<seq<Byte>>): seq<Byte>
    requires ShortTopics(topics)
  {
    if |topics| == 0 then [] else StringBytes(topics[0]) + TopicBytes(topics[1..])
  }

  lemma {:induction false} TopicBytesSnoc(topics: seq<seq<Byte>>, t: seq<Byte>)
    requires ShortTopics(topics) && |t| <= MAX_STRING
    ensures ShortTopics(topics + [t]) && TopicBytes(topics + [t]) == TopicBytes(topics) + StringBytes(t)
  {
    if |topics| == 0 {
      assert topics + [t] == [t];
      assert TopicBytes([t]) == StringBytes(t) + TopicBytes([]);
    } else {
      TopicBytesSnoc(topics[1..], t);
      assert (topics + [t])[1..] == topics[1..] + [t];
    }
  }

  /** The topics found between `at` and `end`, up to the first one that is cut short. */
  function ReadTopics(data: seq<Byte>, at: nat, end: nat): (r: (seq<seq<Byte>>, bool))
    requires end <= |data|
    ensures ShortTopics(r.0)
    decreases end - at
  {
    if end <= at then ([], true)
    else match ReadString(data, at, end)
      case None => ([], false)
      case Some((topic, next)) =>
        var (topics, complete) := ReadTopics(data, next, end);
        ([topic] + topics, complete)
  }

  lemma {:induction false} TopicsRoundTrip(topics: seq<seq<Byte>>, data: seq<Byte>, at: nat, end: nat)
    requires ShortTopics(topics) && at + |TopicBytes(topics)| == end <= |data|
    requires data[at..end] == TopicBytes(topics)
    ensures ReadTopics(data, at, end) == (topics, true)
    decreases |topics|
  {
    hide StringBytes, ReadString, ReadTopics;
    ReadTopicsStep(data, at, end);
    if |topics| > 0 {
      var t, whole := topics[0], TopicBytes(topics);
      var n := 2 + |t|;
      assert |StringBytes(t)| == n;
      SliceOf(data, at, whole, 0, n);
      assert whole[..n] == StringBytes(t);
      StringRoundTrip(t, data, at, end);
      SliceOf(data, at, whole, n, |whole|);
      assert whole[n..] == TopicBytes(topics[1..]);
      TopicsRoundTrip(topics[1..], data, at + n, end);
      var read := ReadTopics(data, at, end).0;
      assert read == [read[0]] + read[1..] && topics == [t] + topics[1..];
    }
  }

  datatype Unsubscribe = Unsubscribe(dup: bool, packetId: nat, topics: seq<seq<Byte>>) {
    predicate Valid() {
      packetId <= 65535 && ShortTopics(topics) && |this.Body()| < LENGTH_LIMIT
    }

    function Body(): seq<Byte>
      requires packetId <= 65535 && ShortTopics(topics)
    {
      IntBytes(packetId) + TopicBytes(topics)
    }

    function Bytes(): seq<Byte>
      requires Valid()
    {
      PacketBytes(HeaderByte(UNSUBSCRIBE, dup, 1, false), Body())
    }
  }

  datatype UnsubscribeRead = UnsubscribeRead(rc: int, dup: bool, packetId: nat, topics: seq<seq<Byte>>, complete: bool)

  function DecodeUnsubscribe(data: seq<Byte>): UnsubscribeRead
    requires IdReadable(data)
  {
    if data[0] / 16 != UNSUBSCRIBE then UnsubscribeRead(0, false, 0, [], false)
    else
      var f := FrameOf(data);
      var (topics, complete) := ReadTopics(data, f.at + 2, f.end);
      UnsubscribeRead(if complete then 1 else f.lengthBytes, data[0] / 8 % 2 == 1, IntOf(data, f.at), topics, complete)
  }

  /** The buffer starts with this request, in a length field of at most four bytes. */
  ghost predicate IsUnsubscribe(data: seq<Byte>, u: Unsubscribe)
    requires HoldsPacket(data)
  {
    && u.Valid() && FrameOf(data).lengthBytes <= MAX_LENGTH_BYTES
    && data[0] / 16 == UNSUBSCRIBE && (data[0] / 8 % 2 == 1 <==> u.dup)
    && data[FrameOf(data).at..FrameOf(data).end] == u.Body()
  }

  lemma UnsubscribeIsRead(data: seq<Byte>, u: Unsubscribe)
    requires HoldsPacket(data) && IsUnsubscribe(data, u)
    ensures IdReadable(data) && DecodeUnsubscribe(data) == UnsubscribeRead(1, u.dup, u.packetId, u.topics, true)
  {
    hide FrameOf, ScanLength, IntBytes, IntOf, TopicBytes, ReadTopics;
    var body := u.Body();
    var at := FrameOf(data).at;
    SliceOf(data, at, body, 0, 2);
    assert body[..2] == IntBytes(u.packetId);
    IntRoundTrip(u.packetId, data, at);
    SliceOf(data, at, body, 2, |body|);
    assert body[2..] == TopicBytes(u.topics);
    TopicsRoundTrip(u.topics, data, at + 2, at + |body|);
  }

  lemma UnsubscribeRoundTrip(u: Unsubscribe, rest: seq<Byte>)
    requires u.Valid()
    ensures var data := u.Bytes() + rest;
            IdReadable(data) && DecodeUnsubscribe(data) == UnsubscribeRead(1, u.dup, u.packetId, u.topics, true)
  {
    hide FrameOf, HeaderByte, PacketBytes, DecodeUnsubscribe, IdReadable;
    FrameRoundTrip(HeaderByte(UNSUBSCRIBE, u.dup, 1, false), u.Body(), rest);
    HeaderBits(UNSUBSCRIBE, u.dup, 1, false);
    EncodedSize(|u.Body()|);
    UnsubscribeIsRead(u.Bytes() + rest, u);
  }

  /** A list that reads to its end is what was written for these topics. */
  lemma {:induction false} TopicsAreBytes(data: seq<Byte>, at: nat, end: nat)
    requires at <= end <= |data| && ReadTopics(data, at, end).1
    ensures ShortTopics(ReadTopics(data, at, end).0) && data[at..end] == TopicBytes(ReadTopics(data, at, end).0)
    decreases end - at
  {
    hide StringBytes, ReadString, ReadTopics;
    ReadTopicsStep(data, at, end);
    if at < end {
      var (topic, next) := ReadString(data, at, end).value;
      var topics := ReadTopics(data, at, end).0;
      ReadIsBytes(data, at, end);
      TopicsAreBytes(data, next, end);
      assert topics == [topic] + topics[1..];
      assert data[at..end] == data[at..next] + data[next..end];
    }
  }

  lemma UnsubscribeParts(data: seq<Byte>) returns (u: Unsubscribe)
    requires IdReadable(data) && data[0] / 16 == UNSUBSCRIBE && FrameOf(data).lengthBytes <= MAX_LENGTH_BYTES
    requires FrameOf(data).at + 2 <= FrameOf(data).end
    requires ReadTopics(data, FrameOf(data).at + 2, FrameOf(data).end).1
    ensures IsUnsubscribe(data, u)
  {
    hide FrameOf, ScanLength, ReadTopics, IntBytes, IntOf, TopicBytes;
    var f := FrameOf(data);
    BodyIsShort(data);
    TopicsAreBytes(data, f.at + 2, f.end);
    IntIsBytes(data, f.at);
    u := Unsubscribe(data[0] / 8 % 2 == 1, IntOf(data, f.at), ReadTopics(data, f.at + 2, f.end).0);
    Slices(data, f.at, f.at + 2, f.end);
    assert u.Body() == data[f.at..f.end];
  }

  /** These bytes are those of some list of topics. */
  ghost predicate AreTopics(bytes: seq<Byte>) {
    exists topics :: ShortTopics(topics) && TopicBytes(topics) == bytes
  }

  // The decoder reads to the end exactly what some list has been written as.
  lemma ReadsTopics(data: seq<Byte>, at: nat, end: nat)
    requires at <= end <= |data|
    ensures ReadTopics(data, at, end).1 <==> AreTopics(data[at..end])
  {
    hide TopicBytes, ReadTopics;
    if ReadTopics(data, at, end).1 { TopicsAreBytes(data, at, end); }
    if AreTopics(data[at..end]) {
      var topics :| ShortTopics(topics) && TopicBytes(topics) == data[at..end];
      TopicsRoundTrip(topics, data, at, end);
    }
  }

  /** A request is always answered with 1; what is none is answered with 1 as well if its list is cut
      short and the length field is a single byte, or otherwise if the length field has more than four
      bytes or the packet has no room for its identifier. */
  lemma UnsubscribeReturnCode(data: seq<Byte>)
    requires IdReadable(data)
    ensures (exists u :: IsUnsubscribe(data, u)) ==> DecodeUnsubscribe(data).rc == 1
    ensures DecodeUnsubscribe(data).rc == 1 && !(exists u :: IsUnsubscribe(data, u)) <==>
              && data[0] / 16 == UNSUBSCRIBE
              && var f := FrameOf(data);
                 f.end < f.at + 2 ||
                 if AreTopics(data[f.at + 2..f.end]) then f.lengthBytes > MAX_LENGTH_BYTES else f.lengthBytes == 1
  {
    hide FrameOf, ScanLength, ReadTopics, IntOf, TopicBytes, AreTopics;
    var at, end := FrameOf(data).at + 2, FrameOf(data).end;
    if at <= end { ReadsTopics(data, at, end); }
    ReadTopicsStep(data, at, end);
    if exists u :: IsUnsubscribe(data, u) {
      var u :| IsUnsubscribe(data, u);
      UnsubscribeIsRead(data, u);
    } else if DecodeUnsubscribe(data).complete && data[0] / 16 == UNSUBSCRIBE {
      var f := FrameOf(data);
      if f.lengthBytes <= MAX_LENGTH_BYTES && f.at + 2 <= f.end {
        var u := UnsubscribeParts(data);
      }
    }
  }

  /** An UNSUBSCRIBE with nothing in it: the identifier comes from behind the packet, the answer is 1. */
  lemma IdentifierBehindUnsubscribe()
    ensures var data := [0xA2, 0, 7, 7];
            IdReadable(data) && DecodeUnsubscribe(data) == UnsubscribeRead(1, false, 0x0707, [], true)
  {
    var data: seq<Byte> := [0xA2, 0, 7, 7];
    assert ScanLength(data, 1) == Done(1);
    assert data[1..2] == [0] + [];
    ValueOfCons(0, []);
  }

  function Topics(topics: seq<MqttString>): (ts: seq<seq<Byte>>)
    requires AllValid(topics)
    ensures |ts| == |topics| && ShortTopics(ts)
  {
    seq(|topics|, i requires 0 <= i < |topics| => topics[i].Content())
  }

  /** MQTTSerialize_unsubscribeLength. */
  method UnsubscribeLength(topicFilters: seq<MqttString>) returns (len: nat)
    requires AllValid(topicFilters)
    ensures len == 2 + |TopicBytes(Topics(topicFilters))|
  {
    len := 2;
    var i := 0;
    ghost var ts := Topics(topicFilters);
    while i < |topicFilters|
      invariant 0 <= i <= |topicFilters| && len == 2 + |TopicBytes(ts[..i])|
    {
      TopicBytesSnoc(ts[..i], ts[i]);
      assert ts[..i] + [ts[i]] == ts[..i + 1];
      topicFilters[i].LengthOfContent();
      len := len + 2 + topicFilters[i].Length();
      i := i + 1;
    }
    assert ts[..i] == ts;
  }

  method SerializeUnsubscribe(buf: array<Byte>, dup: bool, packetId: nat, topicFilters: seq<MqttString>)
    returns (rc: int)
    requires AllValid(topicFilters) && Unsubscribe(dup, packetId, Topics(topicFilters)).Valid()
    modifies buf
    ensures var u := Unsubscribe(dup, packetId, Topics(topicFilters));
            if PacketLen(|u.Body()|) > buf.Length
            then rc == -2 && buf[..] == old(buf[..])
            else rc == |u.Bytes()| <= PacketLen(|u.Body()|) && Wrote(old(buf[..]), buf[..], 0, u.Bytes())
  {
    hide Wrote, EncodeLength, HeaderByte, TopicBytes, IntBytes;
    ghost var u := Unsubscribe(dup, packetId, Topics(topicFilters));
    PacketLenIsEnough(|u.Body()|);
    var remaining := UnsubscribeLength(topicFilters);
    if PacketLen(remaining) > buf.Length {
      return BUFFER_TOO_SHORT;
    }
    var at := StartPacket(buf, HeaderByte(UNSUBSCRIBE, dup, 1, false), remaining);
    ghost var b1 := buf[..];
    at := WriteInt(buf, at, packetId);
    ghost var b2 := buf[..];
    rc := WriteTopics(buf, at, topicFilters);
    WroteBoth(b1, b2, buf[..], at - 2, IntBytes(packetId), TopicBytes(u.topics));
    WroteBoth(old(buf[..]), b1, buf[..], 0,
              [HeaderByte(UNSUBSCRIBE, dup, 1, false)] + EncodeLength(remaining), u.Body());
  }

  method WriteTopics(buf: array<Byte>, at: nat, topicFilters: seq<MqttString>) returns (next: nat)
    requires AllValid(topicFilters) && at + |TopicBytes(Topics(topicFilters))| <= buf.Length
    modifies buf
    ensures var bytes := TopicBytes(Topics(topicFilters));
            next == at + |bytes| && Wrote(old(buf[..]), buf[..], at, bytes)
  {
    ghost var ts := Topics(topicFilters);
    next := at;
    var i := 0;
    assert TopicBytes(ts[..0]) == [];
    while i < |topicFilters|
      invariant 0 <= i <= |topicFilters| && next == at + |TopicBytes(ts[..i])| <= buf.Length
      invariant Wrote(old(buf[..]), buf[..], at, TopicBytes(ts[..i]))
    {
      hide Wrote, TopicBytes, StringBytes;
      TopicBytesSnoc(ts[..i], ts[i]);
      assert ts[..i] + [ts[i]] == ts[..i + 1];
      FirstTopicsAreShorter(ts, i + 1);
      ghost var b0 := buf[..];
      next := WriteString(buf, next, topicFilters[i]);
      WroteBoth(old(buf[..]), b0, buf[..], at, TopicBytes(ts[..i]), StringBytes(ts[i]));
      i := i + 1;
    }
    assert ts[..i] == ts;
  }

  lemma {:induction false} FirstTopicsAreShorter(topics: seq<seq<Byte>>, i: nat)
    requires ShortTopics(topics) && i <= |topics|
    ensures |TopicBytes(topics[..i])| <= |TopicBytes(topics)|
    decreases |topics| - i
  {
    if i == |topics| {
      assert topics[..i] == topics;
    } else {
      FirstTopicsAreShorter(topics, i + 1);
      TopicBytesSnoc(topics[..i], topics[i]);
      assert topics[..i] + [topics[i]] == topics[..i + 1];
    }
  }

  /** MQTTDeserialize_unsubscribe. The array must have room for the list: the code never looks at
      its size. */
  method DeserializeUnsubscribe(buf: array<Byte>, topicFilters: array<seq<Byte>>)
    returns (rc: int, dup: bool, packetId: nat, count: nat)
    requires IdReadable(buf[..])
    requires var r := DecodeUnsubscribe(buf[..]); |r.topics| + (if r.complete then 0 else 1) <= topicFilters.Length
    modifies topicFilters
    ensures var r := DecodeUnsubscribe(buf[..]);
            && rc == r.rc && dup == r.dup && packetId == r.packetId
            && count == |r.topics| <= topicFilters.Length && topicFilters[..count] == r.topics
  {
    hide ScanLength, ValueOf, ReadTopics;
    rc, dup, packetId, count := 0, false, 0, 0;
    var header := buf[0];
    if header / 16 != UNSUBSCRIBE { return; }
    dup := header / 8 % 2 == 1;
    var lengthBytes, mylen := DecodeBuf(buf);
    rc := lengthBytes;
    var curdata := 1 + rc;
    var enddata := curdata + mylen;
    packetId := 256 * (buf[curdata] as nat) + buf[curdata + 1];
    curdata := curdata + 2;
    var complete;
    complete, count := ReadTopicList(buf, curdata, enddata, topicFilters);
    if !complete { return; }
    rc := 1;
  }

  /** The loop of MQTTDeserialize_unsubscribe. */
  method ReadTopicList(buf: array<Byte>, from: nat, enddata: nat, topicFilters: array<seq<Byte>>)
    returns (complete: bool, count: nat)
    requires enddata <= buf.Length
    requires var (topics, complete) := ReadTopics(buf[..], from, enddata);
             |topics| + (if complete then 0 else 1) <= topicFilters.Length
    modifies topicFilters
    ensures var (topics, all) := ReadTopics(buf[..], from, enddata);
            complete == all && count == |topics| <= topicFilters.Length && topicFilters[..count] == topics
  {
    hide ReadTopics, ReadString;
    ghost var data := buf[..];
    ghost var all := ReadTopics(data, from, enddata);
    var curdata := from;
    count := 0;
    while curdata < enddata
      invariant buf[..] == data && count <= |all.0| && count <= topicFilters.Length
      invariant ReadTopics(data, curdata, enddata) == (all.0[count..], all.1)
      invariant topicFilters[..count] == all.0[..count]
      decreases enddata - curdata
    {
      ReadTopicsStep(data, curdata, enddata);
      var ok, topic, next := ReadLenString(buf, curdata, enddata);
      if !ok { return false, count; }
      topicFilters[count] := topic;
      curdata := next;
      assert all.0[count] == all.0[count..][0] && all.0[count..][1..] == all.0[count + 1..];
      count := count + 1;
    }
    ReadTopicsStep(data, curdata, enddata);
    complete := true;
  }

  lemma ReadTopicsStep(data: seq<Byte>, at: nat, end: nat)
    requires end <= |data|
    ensures var (topics, complete) := ReadTopics(data, at, end);
            if end <= at then topics == [] && complete
            else match ReadString(data, at, end)
              case None => topics == [] && !complete
              case Some((topic, next)) =>
                |topics| > 0 && topics[0] == topic && ReadTopics(data, next, end) == (topics[1..], complete)
  {
  }
}
