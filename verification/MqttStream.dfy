/** Packets written one after another come off the stream as they were written, whatever pieces they arrive in
    (MQTT/MQTTPacket.c:29-48 and 362-411). */
module MqttStream {
  import opened Bytes
  import opened MqttLength
  import opened MqttPackets
  import opened MqttReader

  /** A packet before it is framed: its first byte, and all behind its length field. */
  datatype Written = Written(header: Byte, body: seq<Byte>) {
    predicate Fits(buflen: nat) {
      |body| < 268435456 && |PacketBytes(header, body)| <= buflen
    }
  }

  function Sent(packets: seq<Written>): seq<Byte> {
    if |packets| == 0 then [] else PacketBytes(packets[0].header, packets[0].body) + Sent(packets[1..])
  }

  function Received(packets: seq<Written>): seq<Delivery> {
    if |packets| == 0 then []
    else [Delivery(packets[0].header / 16, PacketBytes(packets[0].header, packets[0].body))] + Received(packets[1..])
  }

  /** A framed packet at any place of a stream is read as that packet if it fits the buffer, and is an error if
      it does not. */
  lemma PacketRead(data: seq<Byte>, at: nat, p: Written, buflen: nat)
    requires |p.body| < 268435456
    requires at + |PacketBytes(p.header, p.body)| <= |data|
    requires data[at..at + |PacketBytes(p.header, p.body)|] == PacketBytes(p.header, p.body)
    ensures var bytes := PacketBytes(p.header, p.body);
            Parse(data, at, buflen) ==
              if p.Fits(buflen) then Packet(p.header / 16, bytes, |bytes|) else Failed
  {
    hide ScanLength, ValueOf, EncodeLength, Body;
    HeadOf(data, at, p);
    LengthRoundTrip(|p.body|, data, at + 1);
    BodyRead(data, at, p, buflen);
  }

  lemma BodyRead(data: seq<Byte>, at: nat, p: Written, buflen: nat)
    requires var bytes, n := PacketBytes(p.header, p.body), |EncodeLength(|p.body|)|;
             && |p.body| < 268435456
             && at + |bytes| <= |data| && data[at..at + |bytes|] == bytes && data[at] == p.header
             && ValueOf(data[at + 1..at + 1 + n]) == |p.body|
    ensures var bytes, n := PacketBytes(p.header, p.body), |EncodeLength(|p.body|)|;
            Body(data, at, n, buflen, Incomplete) ==
              if p.Fits(buflen) then Packet(p.header / 16, bytes, |bytes|) else Failed
  {
    hide ValueOf, EncodeLength;
    var bytes, e := PacketBytes(p.header, p.body), EncodeLength(|p.body|);
    SliceOf(data, at, bytes, 1 + |e|, |bytes|);
    assert bytes[1 + |e|..|bytes|] == p.body;
    assert Head(data, at, |e|) == [p.header] + e;
  }

  lemma HeadOf(data: seq<Byte>, at: nat, p: Written)
    requires at + |PacketBytes(p.header, p.body)| <= |data|
    requires data[at..at + |PacketBytes(p.header, p.body)|] == PacketBytes(p.header, p.body)
    ensures data[at] == p.header
    ensures var e := EncodeLength(|p.body|); at + 1 + |e| <= |data| && data[at + 1..at + 1 + |e|] == e
  {
    hide EncodeLength;
    var bytes, e := PacketBytes(p.header, p.body), EncodeLength(|p.body|);
    SliceOf(data, at, bytes, 0, 1);
    assert data[at] == data[at + 0..at + 1][0] == bytes[0..1][0];
    SliceOf(data, at, bytes, 1, 1 + |e|);
    assert bytes[1..1 + |e|] == e;
  }

  /** As long as some of its bytes have not arrived, the reader waits, if the packet fits the buffer. */
  lemma CutShort(data: seq<Byte>, at: nat, p: Written, buflen: nat, arrived: nat)
    requires p.Fits(buflen) && at + |PacketBytes(p.header, p.body)| <= |data|
    requires data[at..at + |PacketBytes(p.header, p.body)|] == PacketBytes(p.header, p.body)
    requires at <= arrived < at + |PacketBytes(p.header, p.body)|
    ensures Parse(data[..arrived], at, buflen) == Incomplete
  {
    PacketRead(data, at, p, buflen);
    assert data[..arrived] + data[arrived..] == data;
    var r := Parse(data[..arrived], at, buflen);
    if r != Incomplete {
      ParseMonotonic(data[..arrived], data[arrived..], at, buflen);
    }
  }

  /** A stream of packets that fit the buffer splits into just these, and then into what follows them. */
  lemma {:induction false} SentIsReceived(packets: seq<Written>, data: seq<Byte>, at: nat, buflen: nat)
    requires forall p <- packets :: p.Fits(buflen)
    requires at + |Sent(packets)| <= |data| && data[at..at + |Sent(packets)|] == Sent(packets)
    ensures Split(data, at, buflen) == Received(packets) + Split(data, at + |Sent(packets)|, buflen)
    decreases |packets|
  {
    hide Split, PacketBytes, Written.Fits;
    if |packets| == 0 {
      assert Received(packets) + Split(data, at, buflen) == Split(data, at, buflen);
    } else {
      var p, rest := packets[0], packets[1..];
      var bytes := PacketBytes(p.header, p.body);
      FirstSent(packets, data, at);
      FitsIs(p, buflen);
      hide Parse;
      PacketRead(data, at, p, buflen);
      SplitStep(data, at, buflen);
      SentIsReceived(rest, data, at + |bytes|, buflen);
      Regroup([Delivery(p.header / 16, bytes)], Received(rest), Split(data, at + |Sent(packets)|, buflen));
    }
  }

  // Where the first packet of a stream stands, and the others.
  lemma FirstSent(packets: seq<Written>, data: seq<Byte>, at: nat)
    requires |packets| > 0
    requires at + |Sent(packets)| <= |data| && data[at..at + |Sent(packets)|] == Sent(packets)
    ensures var bytes, rest := PacketBytes(packets[0].header, packets[0].body), Sent(packets[1..]);
            && |Sent(packets)| == |bytes| + |rest|
            && data[at..at + |bytes|] == bytes && data[at + |bytes|..at + |bytes| + |rest|] == rest
  {
    hide PacketBytes;
    var bytes := PacketBytes(packets[0].header, packets[0].body);
    SliceOf(data, at, Sent(packets), 0, |bytes|);
    assert Sent(packets)[0..|bytes|] == bytes;
    SliceOf(data, at, Sent(packets), |bytes|, |Sent(packets)|);
    assert Sent(packets)[|bytes|..|Sent(packets)|] == Sent(packets[1..]);
  }

  lemma Regroup<T>(x: seq<T>, y: seq<T>, z: seq<T>)
    ensures x + (y + z) == x + y + z
  {
  }

  lemma FitsIs(p: Written, buflen: nat)
    requires p.Fits(buflen)
    ensures |p.body| < 268435456
  {
  }
}
