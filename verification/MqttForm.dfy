/** The bytes of the packets in numbers, as MQTT 3.1.1 lays them down (sections 1.5, 2.2, 3.1, 3.3, 3.8 and 3.10). */
module MqttForm {
  import opened Bytes
  import opened MqttConnect
  import opened MqttLength
  import opened MqttPackets
  import opened MqttUnsubscribe
  import opened MqttWire
  import opened Wrappers

  /** Section 2.2.3: seven bits a byte, the lowest first, the top bit set in all bytes but the last. */
  lemma LengthForm(n: nat)
    requires n < 268435456
    ensures EncodeLength(n) ==
            if n < 128 then [n]
            else if n < 16384 then [128 + n % 128, n / 128]
            else if n < 2097152 then [128 + n % 128, 128 + n / 128 % 128, n / 16384]
            else [128 + n % 128, 128 + n / 128 % 128, 128 + n / 16384 % 128, n / 2097152]
  {
    hide EncodeLength;
    if n < 128 {
      OneByte(n);
    } else if n < 16384 {
      TwoBytes(n);
    } else if n < 2097152 {
      ThreeBytes(n);
    } else {
      FourBytes(n);
    }
  }

  lemma OneByte(n: nat)
    requires n < 128
    ensures EncodeLength(n) == [n]
  {
  }

  lemma TwoBytes(n: nat)
    requires 128 <= n < 16384
    ensures EncodeLength(n) == [128 + n % 128, n / 128]
  {
    OneMore(n);
    OneByte(n / 128);
    hide EncodeLength;
  }

  lemma OneMore(n: nat)
    ensures EncodeLength(n) == if n < 128 then [n] else [128 + n % 128] + EncodeLength(n / 128)
  {
  }

  lemma Quotients(n: nat)
    ensures n / 128 / 128 == n / 16384 && n / 128 / 16384 == n / 2097152
  {
  }

  lemma ThreeBytes(n: nat)
    requires 16384 <= n < 2097152
    ensures EncodeLength(n) == [128 + n % 128, 128 + n / 128 % 128, n / 16384]
  {
    hide EncodeLength;
    OneMore(n);
    Quotients(n);
    TwoBytes(n / 128);
  }

  lemma FourBytes(n: nat)
    requires 2097152 <= n < 268435456
    ensures EncodeLength(n) == [128 + n % 128, 128 + n / 128 % 128, 128 + n / 16384 % 128, n / 2097152]
  {
    hide EncodeLength;
    OneMore(n);
    Quotients(n);
    ThreeBytes(n / 128);
  }

  /** Sections 1.5.2 and 1.5.3: the high byte of a number first, and of the length in front of a string. */
  lemma StringForm(n: nat, s: seq<Byte>)
    requires n < 65536 && |s| < 65536
    ensures IntBytes(n) == [n / 256, n % 256] && StringBytes(s) == [|s| / 256, |s| % 256] + s
  {
  }

  /** Section 3.1: type 1 and no flags; the protocol's name and level; flags, keep-alive time, and then the
      client identifier, the will's topic and message, user name and password, as far as they are there. */
  lemma ConnectForm(version: nat, c: Connect)
    requires c.Valid() && |ConnectBody(version, c)| < LENGTH_LIMIT
    ensures var body :=
              (if version == 4 then [0, 4, 0x4D, 0x51, 0x54, 0x54, 4]
               else [0, 6, 0x4D, 0x51, 0x49, 0x73, 0x64, 0x70, 3])
              + [Flags(c), c.keepAlive / 256, c.keepAlive % 256] + StringBytes(c.clientId)
              + (if c.will.Some? then StringBytes(c.will.value.topic) + StringBytes(c.will.value.message) else [])
              + (if c.username.Some? then StringBytes(c.username.value) else [])
              + (if c.password.Some? then StringBytes(c.password.value) else []);
            ConnectBytes(version, c) == [0x10] + EncodeLength(|body|) + body
    ensures Flags(c) ==
            (if c.username.Some? then 0x80 else 0) + (if c.password.Some? then 0x40 else 0)
            + (if c.will.Some? then (if c.will.value.retained then 0x20 else 0) + 8 * c.will.value.qos + 4 else 0)
            + (if c.cleanSession then 2 else 0)
  {
    hide EncodeLength, StringBytes, Flags;
    ProtocolForm(version);
    var head, numbers, id := ProtocolBytes(version), [Flags(c)] + IntBytes(c.keepAlive), StringBytes(c.clientId);
    var will, user, password := WillBytes(c), OptionBytes(c.username), OptionBytes(c.password);
    hide ProtocolBytes, WillBytes, OptionBytes;
    Flat(head, [Flags(c)], IntBytes(c.keepAlive), id, will, user, password);
    FlagsForm(c);
  }

  lemma Flat(a: seq<Byte>, b: seq<Byte>, c: seq<Byte>, d: seq<Byte>, e: seq<Byte>, f: seq<Byte>, g: seq<Byte>)
    ensures a + (b + (c + (d + (e + (f + g))))) == a + (b + c) + d + e + f + g
  {
    assert d + (e + (f + g)) == d + e + f + g;
    assert b + (c + (d + e + f + g)) == (b + c) + (d + e + f + g);
    assert a + ((b + c) + (d + e + f + g)) == a + (b + c) + d + e + f + g;
  }

  lemma FlagsForm(c: Connect)
    requires c.Valid()
    ensures Flags(c) ==
            (if c.username.Some? then 0x80 else 0) + (if c.password.Some? then 0x40 else 0)
            + (if c.will.Some? then (if c.will.value.retained then 0x20 else 0) + 8 * c.will.value.qos + 4 else 0)
            + (if c.cleanSession then 2 else 0)
  {
  }

  lemma ProtocolForm(version: nat)
    ensures ProtocolBytes(version) ==
            if version == 4 then [0, 4, 0x4D, 0x51, 0x54, 0x54, 4] else [0, 6, 0x4D, 0x51, 0x49, 0x73, 0x64, 0x70, 3]
  {
  }

  /** Section 3.3: type 3 with DUP, QoS and RETAIN; the topic, an identifier unless QoS is 0, the message. */
  lemma PublishForm(p: Publish)
    requires p.Valid()
    ensures var body := StringBytes(p.topic) + (if p.qos > 0 then [p.packetId / 256, p.packetId % 256] else [])
                        + p.payload;
            p.Bytes() == [0x30 + (if p.dup then 8 else 0) + 2 * p.qos + (if p.retained then 1 else 0)]
                         + EncodeLength(|body|) + body
  {
    hide EncodeLength, StringBytes;
  }

  /** Section 3.8: type 8, with the QoS bits reading 1 as for every request; the identifier, and each filter with
      its QoS behind it. The standard has no DUP flag here; the code puts it where PUBLISH has it. */
  lemma SubscribeForm(s: Subscribe)
    requires s.Valid()
    ensures var body := [s.packetId / 256, s.packetId % 256] + FilterBytes(s.filters);
            s.Bytes() == [if s.dup then 0x8A else 0x82] + EncodeLength(|body|) + body
    ensures FilterBytes(s.filters) == if s.filters == [] then [] else
              StringBytes(s.filters[0].topic) + [s.filters[0].qos] + FilterBytes(s.filters[1..])
  {
    hide EncodeLength, StringBytes;
  }

  /** Section 3.10: the same with type 10, and topics alone. */
  lemma UnsubscribeForm(u: Unsubscribe)
    requires u.Valid()
    ensures var body := [u.packetId / 256, u.packetId % 256] + TopicBytes(u.topics);
            u.Bytes() == [if u.dup then 0xAA else 0xA2] + EncodeLength(|body|) + body
    ensures TopicBytes(u.topics) == if u.topics == [] then [] else StringBytes(u.topics[0]) + TopicBytes(u.topics[1..])
  {
    hide EncodeLength, StringBytes;
  }

  const OPTIONS: Connect := Connect(true, 60, [99], Some(Will([116], [109], 1, true)), Some([117]), Some([112]))
  const SAMPLE: seq<Byte> := [0x10, 25, 0, 4, 0x4D, 0x51, 0x54, 0x54, 4, 0xEE, 0, 60, 0, 1, 99,
                              0, 1, 116, 0, 1, 109, 0, 1, 117, 0, 1, 112]

  /** And one CONNECT packet, byte by byte, that is read with all its fields. */
  lemma SampleConnect()
    ensures ConnectReadable(SAMPLE, 27) && DecodeConnect(SAMPLE, 27) == Some(OPTIONS)
  {
    SampleLength(OPTIONS);
    SamplePacket();
    hide ConnectBytes, DecodeConnect, ConnectReadable;
    ConnectRoundTrip(4, OPTIONS, []);
    assert ConnectBytes(4, OPTIONS) + [] == ConnectBytes(4, OPTIONS);
  }

  lemma SamplePacket()
    requires |ConnectBody(4, OPTIONS)| < LENGTH_LIMIT
    ensures ConnectBytes(4, OPTIONS) == SAMPLE
  {
    hide ConnectBytes, ConnectBody, EncodeLength, Flags, StringBytes;
    ConnectForm(4, OPTIONS);
    LengthForm(25);
    ShortForm(99);
    ShortForm(116);
    ShortForm(109);
    ShortForm(117);
    ShortForm(112);
    SampleBytes();
  }

  lemma SampleLength(c: Connect)
    requires c.Valid() && |c.clientId| == 1 && c.username.Some? && c.password.Some? && c.will.Some?
    requires |c.username.value| == |c.password.value| == |c.will.value.topic| == |c.will.value.message| == 1
    ensures |ConnectBody(4, c)| == 25
  {
    hide StringBytes, Flags;
  }

  lemma SampleBytes()
    ensures [0x10] + [25] + ([0, 4, 0x4D, 0x51, 0x54, 0x54, 4] + [0xEE, 0, 60] + [0, 1, 99]
                             + ([0, 1, 116] + [0, 1, 109]) + [0, 1, 117] + [0, 1, 112]) ==
            [0x10, 25, 0, 4, 0x4D, 0x51, 0x54, 0x54, 4, 0xEE, 0, 60, 0, 1, 99, 0, 1, 116, 0, 1, 109,
             0, 1, 117, 0, 1, 112]
  {
  }

  lemma ShortForm(b: Byte)
    ensures StringBytes([b]) == [0, 1, b]
  {
  }
}
