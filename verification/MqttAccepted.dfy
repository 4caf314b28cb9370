/** What the readers make of any packet at all, written by this client or not: fields are read exactly if the bytes
    are laid out with them (MQTT/MQTTPacket.c:54-117, MQTT/MQTTConnectServer.c:30-108,
    MQTT/MQTTDeserializePublish.c:36-69, MQTT/MQTTSubscribeServer.c:35-70 and MQTT/MQTTUnsubscribeServer.c:34-66). */
module MqttAccepted {
  import opened Bytes
  import opened MqttConnect
  import opened MqttLength
  import opened MqttPackets
  import opened MqttUnsubscribe
  import opened MqttWire
  import opened Wrappers

  /** The length field is there: it ends with a byte below 128, or has four that announce another. */
  predicate Announced(data: seq<Byte>) {
    && 1 < |data|
    && (data[1] < 128 || (2 < |data| && (data[2] < 128 || (3 < |data| && (data[3] < 128 || 4 < |data|)))))
  }

  /** The length field in numbers. A fifth byte is counted in, but has no part in the value. */
  lemma FrameForm(data: seq<Byte>)
    ensures HoldsLength(data) <==> Announced(data)
    ensures HoldsLength(data) ==>
              FrameOf(data) ==
              if data[1] < 128 then Frame(2, 2 + data[1], 1)
              else if data[2] < 128 then Frame(3, 3 + data[1] as int % 128 + data[2] as int * 128, 2)
              else if data[3] < 128 then
                Frame(4, 4 + data[1] as int % 128 + data[2] as int % 128 * 128 + data[3] as int * 16384, 3)
              else
                var value := data[1] as int % 128 + data[2] as int % 128 * 128 + data[3] as int % 128 * 16384
                             + data[4] as int % 128 * 2097152;
                if data[4] < 128 then Frame(5, 5 + value, 4) else Frame(6, 6 + value, 5)
  {
    Scanned(data);
    hide ValueOf, ScanLength;
    if Announced(data) {
      OneDigit(data[1]);
      if data[1] < 128 {
        assert data[1..2] == [data[1]];
      } else if data[2] < 128 {
        TwoDigits(data[1], data[2]);
        assert data[1..3] == [data[1], data[2]];
      } else if data[3] < 128 {
        ThreeDigits(data[1], data[2], data[3]);
        assert data[1..4] == [data[1], data[2], data[3]];
      } else {
        FourDigits(data[1], data[2], data[3], data[4]);
        assert data[1..5] == [data[1], data[2], data[3], data[4]];
      }
    }
  }

  lemma Scanned(data: seq<Byte>)
    ensures HoldsLength(data) <==> Announced(data)
    ensures HoldsLength(data) ==>
              ScanLength(data, 1) ==
              if data[1] < 128 then Done(1) else if data[2] < 128 then Done(2) else if data[3] < 128 then Done(3)
              else if data[4] < 128 then Done(4) else Bad
  {
    if 1 < |data| && 128 <= data[1] {
      assert ScanLength(data, 1) == ScanLength(data, 1, 1);
      if 2 < |data| && 128 <= data[2] {
        assert ScanLength(data, 1, 1) == ScanLength(data, 1, 2);
        if 3 < |data| && 128 <= data[3] {
          assert ScanLength(data, 1, 2) == ScanLength(data, 1, 3);
          assert 4 < |data| && 128 <= data[4] ==> ScanLength(data, 1, 3) == ScanLength(data, 1, 4);
        }
      }
    }
  }

  lemma OneDigit(b: Byte)
    ensures ValueOf([b]) == b % 128
  {
    ValueOfNothing();
    ValueOfCons(b, []);
    assert [b] + [] == [b];
  }

  lemma TwoDigits(a: Byte, b: Byte)
    ensures ValueOf([a, b]) == a % 128 + b % 128 * 128
  {
    hide ValueOf;
    OneDigit(b);
    ValueOfCons(a, [b]);
    assert [a] + [b] == [a, b];
  }

  lemma ThreeDigits(a: Byte, b: Byte, c: Byte)
    ensures ValueOf([a, b, c]) == a % 128 + b % 128 * 128 + c % 128 * 16384
  {
    hide ValueOf;
    TwoDigits(b, c);
    ValueOfCons(a, [b, c]);
    assert [a] + [b, c] == [a, b, c];
  }

  lemma FourDigits(a: Byte, b: Byte, c: Byte, d: Byte)
    ensures ValueOf([a, b, c, d]) == a % 128 + b % 128 * 128 + c % 128 * 16384 + d % 128 * 2097152
  {
    hide ValueOf;
    ThreeDigits(b, c, d);
    ValueOfCons(a, [b, c, d]);
    assert [a] + [b, c, d] == [a, b, c, d];
  }

  // ---------------------------------------------------------------------------------------------
  // Strings

  lemma StringExactly(data: seq<Byte>, at: nat, end: nat, s: seq<Byte>, next: nat)
    requires at <= end <= |data|
    ensures ReadString(data, at, end) == Some((s, next)) <==>
              |s| <= MAX_STRING && next == at + 2 + |s| && StringBytes(s) <= data[at..end]
  {
    hide StringBytes, ReadString, IntOf;
    if ReadString(data, at, end) == Some((s, next)) {
      ReadIsBytes(data, at, end);
      Slices(data, at, next, end);
    } else if |s| <= MAX_STRING && StringBytes(s) <= data[at..end] {
      var n := 2 + |s|;
      assert data[at..at + n] == data[at..end][..n] == StringBytes(s);
      StringRoundTrip(s, data, at, end);
    }
  }

  // One text behind another is the beginning of what both are read from, one behind the other.
  lemma Prefixes(a: seq<Byte>, b: seq<Byte>, data: seq<Byte>, at: nat, end: nat)
    requires at <= end <= |data|
    ensures a + b <= data[at..end] <==>
              a <= data[at..end] && b <= data[at + |a|..end]
    ensures a <= data[at..end] ==> at + |a| <= end && data[at..end] == a + data[at + |a|..end]
  {
  }

  // ---------------------------------------------------------------------------------------------
  // CONNECT

  // The lengths fit their two bytes. A reader may find the QoS 3 that does not exist.
  predicate ShortConnect(c: Connect) {
    && c.keepAlive <= 65535 && |c.clientId| <= MAX_STRING
    && (c.will.Some? ==> |c.will.value.topic| <= MAX_STRING && |c.will.value.message| <= MAX_STRING)
    && ShortOption(c.username) && ShortOption(c.password)
  }

  /** The flags say what is there, and about a will its QoS and whether it is retained. */
  predicate FlagsSay(flags: Byte, c: Connect) {
    && (c.cleanSession <==> flags / 2 % 2 == 1)
    && (c.username.Some? <==> flags >= 128)
    && (c.password.Some? <==> flags / 64 % 2 == 1)
    && match c.will
       case None => flags / 4 % 2 == 0
       case Some(w) => flags / 4 % 2 == 1 && w.qos == flags / 8 % 4 && (w.retained <==> flags / 32 % 2 == 1)
  }

  function WillText(will: Option<Will>): seq<Byte>
    requires will.Some? ==> |will.value.topic| <= MAX_STRING && |will.value.message| <= MAX_STRING
  {
    if will.Some? then StringBytes(will.value.topic) + StringBytes(will.value.message) else []
  }

  /** The bytes start with these options behind a protocol's name that may be cut short or go on, and a password
      does not come without a user name. Three bytes at least are left for either of them. */
  predicate ConnectAs(bytes: seq<Byte>, name: seq<Byte>, version: Byte, flags: Byte, c: Connect) {
    && |name| <= MAX_STRING && ShortConnect(c) && FlagsSay(flags, c)
    && ((version == 3 && (name <= MQISDP || MQISDP <= name)) || (version == 4 && (name <= MQTT || MQTT <= name)))
    && var head := StringBytes(name) + ([version, flags] + IntBytes(c.keepAlive))
                   + (StringBytes(c.clientId) + WillText(c.will));
       && head + (OptionBytes(c.username) + OptionBytes(c.password)) <= bytes
       && var left := |bytes| - |head|;
          && (c.username.Some? ==> 3 <= left)
          && (c.password.Some? ==> c.username.Some? && 3 <= left - |OptionBytes(c.username)|)
  }

  lemma WillExactly(data: seq<Byte>, at: nat, end: nat, flags: Byte, will: Option<Will>, next: nat)
    requires at <= end <= |data|
    ensures DecodeWill(data, at, end, flags) == Some((will, next)) <==>
              && (match will
                  case None => flags / 4 % 2 == 0
                  case Some(w) =>
                    && flags / 4 % 2 == 1 && w.qos == flags / 8 % 4 && (w.retained <==> flags / 32 % 2 == 1)
                    && |w.topic| <= MAX_STRING && |w.message| <= MAX_STRING)
              && WillText(will) <= data[at..end] && next == at + |WillText(will)|
  {
    hide StringBytes, ReadString;
    if flags / 4 % 2 == 1 {
      var topic := ReadString(data, at, end);
      if topic.Some? {
        StringExactly(data, at, end, topic.value.0, topic.value.1);
        var message := ReadString(data, topic.value.1, end);
        if message.Some? { StringExactly(data, topic.value.1, end, message.value.0, message.value.1); }
      }
      if will.Some? && |will.value.topic| <= MAX_STRING && |will.value.message| <= MAX_STRING {
        var w, middle := will.value, at + 2 + |will.value.topic|;
        StringExactly(data, at, end, w.topic, middle);
        Prefixes(StringBytes(w.topic), StringBytes(w.message), data, at, end);
        if StringBytes(w.topic) <= data[at..end] {
          StringExactly(data, middle, end, w.message, middle + 2 + |w.message|);
        }
      }
    }
  }

  predicate CredentialsAs(bytes: seq<Byte>, flags: Byte, u: Option<seq<Byte>>, p: Option<seq<Byte>>) {
    && ShortOption(u) && ShortOption(p) && (u.Some? <==> flags >= 128) && (p.Some? <==> flags / 64 % 2 == 1)
    && OptionBytes(u) + OptionBytes(p) <= bytes
    && (u.Some? ==> 3 <= |bytes|)
    && (p.Some? ==> u.Some? && 3 <= |bytes| - |OptionBytes(u)|)
  }

  lemma CredentialsExactly(data: seq<Byte>, at: nat, end: nat, flags: Byte, u: Option<seq<Byte>>,
                           p: Option<seq<Byte>>)
    requires at <= end <= |data|
    ensures DecodeCredentials(data, at, end, flags) == Some((u, p)) <==> CredentialsAs(data[at..end], flags, u, p)
  {
    hide StringBytes, ReadString;
    if flags >= 128 {
      var name := ReadString(data, at, end);
      if name.Some? {
        StringExactly(data, at, end, name.value.0, name.value.1);
        var password := ReadString(data, name.value.1, end);
        if password.Some? { StringExactly(data, name.value.1, end, password.value.0, password.value.1); }
      }
      if u.Some? && ShortOption(u) && ShortOption(p) {
        var middle := at + 2 + |u.value|;
        StringExactly(data, at, end, u.value, middle);
        Prefixes(StringBytes(u.value), OptionBytes(p), data, at, end);
        if StringBytes(u.value) <= data[at..end] && p.Some? {
          StringExactly(data, middle, end, p.value, middle + 2 + |p.value|);
        }
      }
    }
  }

  /** Options are read from a buffer exactly if its packet is a CONNECT that starts with them. */
  lemma ConnectReadExactly(data: seq<Byte>, len: nat, c: Connect)
    requires ConnectReadable(data, len)
    ensures DecodeConnect(data, len) == Some(c) <==>
              && 0x10 <= data[0] <= 0x1F && FrameOf(data).at <= len
              && exists name, version, flags :: ConnectAs(data[FrameOf(data).at..len], name, version, flags, c)
  {
    hide FrameOf, ReadString, DecodeOptions, ConnectAs;
    var at := FrameOf(data).at;
    if DecodeConnect(data, len) == Some(c) {
      assert at <= len by { ReadInside(data, at, len); }
      var (name, next) := ReadString(data, at, len).value;
      OptionsRead(data, at, len, name, next, c);
    }
    if 0x10 <= data[0] <= 0x1F && at <= len {
      forall name, version, flags | ConnectAs(data[at..len], name, version, flags, c)
        ensures DecodeConnect(data, len) == Some(c)
      {
        OptionsTaken(data, at, len, name, version, flags, c);
      }
    }
  }

  lemma ReadInside(data: seq<Byte>, at: nat, end: nat)
    requires end <= |data|
    ensures ReadString(data, at, end).Some? ==> at < end
  {
  }

  lemma OptionParts(data: seq<Byte>, at: nat, len: nat, name: seq<Byte>, c: Connect)
    requires at + 4 <= |data| && len <= |data| && DecodeOptions(data, at, len, name) == Some(c)
    ensures CheckVersion(name, data[at]) && c.cleanSession == (data[at + 1] / 2 % 2 == 1)
    ensures c.keepAlive == IntOf(data, at + 2)
    ensures var id := ReadString(data, at + 4, len);
            && id.Some? && c.clientId == id.value.0
            && var will := DecodeWill(data, id.value.1, len, data[at + 1]);
               && will.Some? && c.will == will.value.0
               && will.value.1 <= len
               && DecodeCredentials(data, will.value.1, len, data[at + 1]) == Some((c.username, c.password))
  {
    hide ReadString, DecodeWill, DecodeCredentials, IntOf, CheckVersion, StringBytes, WillText;
    var flags, id := data[at + 1], ReadString(data, at + 4, len);
    var will := DecodeWill(data, id.value.1, len, flags);
    WillExactly(data, id.value.1, len, flags, will.value.0, will.value.1);
    var credentials := DecodeCredentials(data, will.value.1, len, flags);
    assert credentials.value.0 == c.username && credentials.value.1 == c.password;
  }

  lemma OptionsRead(data: seq<Byte>, at: nat, len: nat, name: seq<Byte>, next: nat, c: Connect)
    requires at <= len <= |data| && ReadString(data, at, len) == Some((name, next)) && next + 4 <= |data|
    requires DecodeOptions(data, next, len, name) == Some(c)
    ensures ConnectAs(data[at..len], name, data[next], data[next + 1], c)
  {
    hide StringBytes, ReadString, DecodeWill, DecodeCredentials, DecodeOptions, IntOf, IntBytes, CheckVersion, WillText;
    OptionParts(data, next, len, name, c);
    StringExactly(data, at, len, name, next);
    VersionCheckMeaning(name, data[next]);
    ReadInside(data, next + 4, len);
    IntIsBytes(data, next + 2);
    var flags := data[next + 1];
    var next' := ReadString(data, next + 4, len).value.1;
    StringExactly(data, next + 4, len, c.clientId, next');
    var next'' := DecodeWill(data, next', len, flags).value.1;
    WillExactly(data, next', len, flags, c.will, next'');
    CredentialsExactly(data, next'', len, flags, c.username, c.password);
    var numbers := [data[next], flags] + IntBytes(c.keepAlive);
    assert data[next..next + 4] == numbers;
    Laid(data, at, len, StringBytes(name), numbers, StringBytes(c.clientId), WillText(c.will),
         OptionBytes(c.username) + OptionBytes(c.password));
  }

  lemma OptionsTaken(data: seq<Byte>, at: nat, len: nat, name: seq<Byte>, version: Byte, flags: Byte, c: Connect)
    requires at <= len <= |data| && ConnectAs(data[at..len], name, version, flags, c)
    ensures var next := at + 2 + |name|;
            && next + 4 <= |data| && ReadString(data, at, len) == Some((name, next))
            && DecodeOptions(data, next, len, name) == Some(c)
  {
    hide StringBytes, ReadString, DecodeWill, DecodeCredentials, IntOf, IntBytes, CheckVersion, WillText;
    var numbers := [version, flags] + IntBytes(c.keepAlive);
    Laid(data, at, len, StringBytes(name), numbers, StringBytes(c.clientId), WillText(c.will),
         OptionBytes(c.username) + OptionBytes(c.password));
    var next := at + 2 + |name|;
    StringExactly(data, at, len, name, next);
    VersionCheckMeaning(name, version);
    var next' := next + 6 + |c.clientId|;
    StringExactly(data, next + 4, len, c.clientId, next');
    assert data[next..next + 4] == data[next..len][..4] == numbers;
    assert data[next] == numbers[0] && data[next + 1] == numbers[1] && data[next + 2..next + 4] == numbers[2..];
    IntRoundTrip(c.keepAlive, data, next + 2);
    var next'' := next' + |WillText(c.will)|;
    WillExactly(data, next', len, flags, c.will, next'');
    CredentialsExactly(data, next'', len, flags, c.username, c.password);
  }

  // Five texts, one behind the other.
  lemma Laid(data: seq<Byte>, at: nat, end: nat, a: seq<Byte>, b: seq<Byte>, c: seq<Byte>, d: seq<Byte>, e: seq<Byte>)
    requires at <= end <= |data|
    ensures a + b + (c + d) + e <= data[at..end] <==>
              && a <= data[at..end] && b <= data[at + |a|..end] && c <= data[at + |a| + |b|..end]
              && d <= data[at + |a| + |b| + |c|..end] && e <= data[at + |a| + |b| + |c| + |d|..end]
  {
    assert a + b + (c + d) + e == a + (b + (c + (d + e)));
    Prefixes(a, b + (c + (d + e)), data, at, end);
    if a <= data[at..end] {
      Prefixes(b, c + (d + e), data, at + |a|, end);
      if b <= data[at + |a|..end] {
        Prefixes(c, d + e, data, at + |a| + |b|, end);
        if c <= data[at + |a| + |b|..end] { Prefixes(d, e, data, at + |a| + |b| + |c|, end); }
      }
    }
  }

  // ---------------------------------------------------------------------------------------------
  // PUBLISH

  /** The buffer starts with these fields. The payload is what the topic and the identifier leave of the packet,
      and less than nothing if the identifier lies behind it. */
  ghost predicate PublishAs(data: seq<Byte>, p: PublishFields)
    requires HoldsPacket(data)
  {
    var f, next := FrameOf(data), FrameOf(data).at + 2 + |p.topic|;
    && p.qos <= 3
    && data[0] == 0x30 + (if p.dup then 8 else 0) + 2 * p.qos + (if p.retained then 1 else 0)
    && |p.topic| <= MAX_STRING && StringBytes(p.topic) <= data[f.at..f.end]
    && p.payloadAt == (if p.qos == 0 then next else next + 2) && p.payloadLength == f.end - p.payloadAt
    && (if p.qos == 0 then p.packetId == 0
        else p.packetId <= 65535 && IntBytes(p.packetId) <= data[next..])
  }

  /** A message is stored exactly if the buffer starts with its fields; the return code is then 1, and otherwise
      the number of bytes that the length field takes, or 0 for another type of packet. */
  lemma PublishReadExactly(data: seq<Byte>, p: PublishFields)
    requires PublishReadable(data)
    ensures DecodePublish(data).stored == Some(p) <==> PublishAs(data, p)
    ensures DecodePublish(data).rc ==
            if DecodePublish(data).stored.Some? then 1
            else if 0x30 <= data[0] <= 0x3F then FrameOf(data).lengthBytes else 0
  {
    hide FrameOf, ScanLength, StringBytes, ReadString, IntOf, IntBytes;
    var f := FrameOf(data);
    HeaderParts(data[0]);
    HeaderOf(data[0], p.dup, p.qos, p.retained);
    StringExactly(data, f.at, f.end, p.topic, f.at + 2 + |p.topic|);
    var read := ReadString(data, f.at, f.end);
    if read.Some? { StringExactly(data, f.at, f.end, read.value.0, read.value.1); }
    var next := f.at + 2 + |p.topic|;
    if next + 2 <= |data| { IntExactly(data, next, p.packetId); }
  }

  lemma HeaderOf(h: Byte, dup: bool, qos: nat, retained: bool)
    ensures qos <= 3 && h == 0x30 + (if dup then 8 else 0) + 2 * qos + (if retained then 1 else 0) <==>
            h / 16 == 3 && (dup <==> h / 8 % 2 == 1) && qos == h / 2 % 4 && (retained <==> h % 2 == 1)
  {
  }

  lemma IntExactly(data: seq<Byte>, at: nat, n: nat)
    requires at + 2 <= |data|
    ensures IntOf(data, at) == n <==> n <= 65535 && IntBytes(n) <= data[at..]
  {
    hide IntOf, IntBytes;
    assert data[at..][..2] == data[at..at + 2];
    IntIsBytes(data, at);
    if n <= 65535 && IntBytes(n) <= data[at..] { IntRoundTrip(n, data, at); }
  }

  // ---------------------------------------------------------------------------------------------
  // SUBSCRIBE and UNSUBSCRIBE

  /** Nothing that stands here is a filter with its QoS. */
  ghost predicate NoFilter(bytes: seq<Byte>) {
    forall f: Filter | |f.topic| <= MAX_STRING :: !(f.Bytes() <= bytes)
  }

  /** These filters and nothing else, or these and then something that is not a filter. */
  ghost predicate FiltersAs(bytes: seq<Byte>, filters: seq<Filter>, complete: bool) {
    && Short(filters) && FilterBytes(filters) <= bytes
    && var rest := bytes[|FilterBytes(filters)|..];
       if complete then rest == [] else rest != [] && NoFilter(rest)
  }

  lemma FilterExactly(data: seq<Byte>, at: nat, end: nat, f: Filter)
    requires at <= end <= |data|
    ensures |f.topic| <= MAX_STRING && f.Bytes() <= data[at..end] <==>
              && var next := at + 2 + |f.topic|;
                 ReadString(data, at, end) == Some((f.topic, next)) && next < end && data[next] == f.qos
  {
    hide StringBytes, ReadString;
    var next := at + 2 + |f.topic|;
    StringExactly(data, at, end, f.topic, next);
    if |f.topic| <= MAX_STRING {
      Prefixes(StringBytes(f.topic), [f.qos], data, at, end);
    }
  }

  /** What is read is exactly what stands there. */
  lemma {:induction false} FiltersExactly(data: seq<Byte>, at: nat, end: nat, filters: seq<Filter>, complete: bool)
    requires at <= end <= |data|
    ensures ReadFilters(data, at, end) == (filters, complete) <==> FiltersAs(data[at..end], filters, complete)
    decreases end - at
  {
    hide StringBytes, ReadString, ReadFilters, FilterBytes;
    ReadFiltersStep(data, at, end);
    NothingFirst();
    var read := ReadString(data, at, end);
    if at < end && read.Some? && read.value.1 < end {
      var f, next := Filter(read.value.0, data[read.value.1]), read.value.1 + 1;
      FilterExactly(data, at, end, f);
      if filters != [] && Short(filters) {
        FilterExactly(data, at, end, filters[0]);
        FirstFilter(filters);
        Prefixes(filters[0].Bytes(), FilterBytes(filters[1..]), data, at, end);
        FiltersExactly(data, next, end, filters[1..], complete);
        assert filters == [filters[0]] + filters[1..];
        assert ReadFilters(data, at, end).0 == [ReadFilters(data, at, end).0[0]] + ReadFilters(data, next, end).0;
        if FilterBytes(filters) <= data[at..end] {
          assert data[at..end][|FilterBytes(filters)|..] == data[next..end][|FilterBytes(filters[1..])|..];
        }
      }
    } else if at < end {
      forall f: Filter | |f.topic| <= MAX_STRING ensures !(f.Bytes() <= data[at..end]) {
        FilterExactly(data, at, end, f);
      }
      OnlyTheRest(data[at..end], filters, complete);
    } else {
      assert data[at..end] == [];
      if filters != [] && Short(filters) { FirstFilter(filters); }
    }
  }

  lemma OnlyTheRest(bytes: seq<Byte>, filters: seq<Filter>, complete: bool)
    requires bytes != [] && NoFilter(bytes)
    ensures FiltersAs(bytes, filters, complete) <==> filters == [] && !complete
  {
    hide FilterBytes, StringBytes, Filter.Bytes;
    NothingFirst();
    assert bytes[0..] == bytes;
    if filters != [] && Short(filters) {
      FirstFilter(filters);
      assert !(filters[0].Bytes() <= bytes);
      assert !(filters[0].Bytes() + FilterBytes(filters[1..]) <= bytes) by {
        Prefixes(filters[0].Bytes(), FilterBytes(filters[1..]), bytes, 0, |bytes|);
      }
    }
  }

  lemma NothingFirst()
    ensures FilterBytes([]) == []
  {
  }

  lemma FirstFilter(filters: seq<Filter>)
    requires Short(filters) && filters != []
    ensures FilterBytes(filters) == filters[0].Bytes() + FilterBytes(filters[1..])
  {
  }

  /** A SUBSCRIBE is answered with its two-byte identifier and with all that stands where its filters should: 1 if
      that is filters to the end, and otherwise the number of bytes that the length field takes. */
  lemma SubscribeReadExactly(data: seq<Byte>, r: SubscribeRead)
    requires IdReadable(data)
    ensures DecodeSubscribe(data) == r <==>
            if !(0x80 <= data[0] <= 0x8F) then r == SubscribeRead(-1, false, 0, [], false)
            else
              && var f := FrameOf(data);
              && (r.dup <==> data[0] >= 0x88)
              && r.packetId <= 65535 && IntBytes(r.packetId) <= data[f.at..]
              && (if f.end < f.at + 2 then r.filters == [] && r.complete
                  else FiltersAs(data[f.at + 2..f.end], r.filters, r.complete))
              && r.rc == if r.complete then 1 else f.lengthBytes
  {
    hide FrameOf, ScanLength, ReadFilters, FiltersAs, IntOf, IntBytes;
    var f := FrameOf(data);
    IntExactly(data, f.at, r.packetId);
    ReadFiltersStep(data, f.at + 2, f.end);
    if f.at + 2 <= f.end { FiltersExactly(data, f.at + 2, f.end, r.filters, r.complete); }
  }

  /** Nothing that stands here is a topic. */
  ghost predicate NoTopic(bytes: seq<Byte>) {
    forall t: seq<Byte> | |t| <= MAX_STRING :: !(StringBytes(t) <= bytes)
  }

  /** These topics and nothing else, or these and then something that is not a topic. */
  ghost predicate TopicsAs(bytes: seq<Byte>, topics: seq<seq<Byte>>, complete: bool) {
    && ShortTopics(topics) && TopicBytes(topics) <= bytes
    && var rest := bytes[|TopicBytes(topics)|..];
       if complete then rest == [] else rest != [] && NoTopic(rest)
  }

  lemma {:induction false} TopicsExactly(data: seq<Byte>, at: nat, end: nat, topics: seq<seq<Byte>>, complete: bool)
    requires at <= end <= |data|
    ensures ReadTopics(data, at, end) == (topics, complete) <==> TopicsAs(data[at..end], topics, complete)
    decreases end - at
  {
    hide StringBytes, ReadString, ReadTopics, TopicBytes;
    ReadTopicsStep(data, at, end);
    NoTopicFirst();
    var read := ReadString(data, at, end);
    if at < end && read.Some? {
      var (t, next) := read.value;
      StringExactly(data, at, end, t, next);
      if topics != [] && ShortTopics(topics) {
        StringExactly(data, at, end, topics[0], at + 2 + |topics[0]|);
        FirstTopic(topics);
        Prefixes(StringBytes(topics[0]), TopicBytes(topics[1..]), data, at, end);
        TopicsExactly(data, next, end, topics[1..], complete);
        assert topics == [topics[0]] + topics[1..];
        assert ReadTopics(data, at, end).0 == [ReadTopics(data, at, end).0[0]] + ReadTopics(data, next, end).0;
        if TopicBytes(topics) <= data[at..end] {
          assert data[at..end][|TopicBytes(topics)|..] == data[next..end][|TopicBytes(topics[1..])|..];
        }
      } else {
        assert data[at..end][|TopicBytes([])|..] == data[at..end];
      }
    } else if at < end {
      forall t: seq<Byte> | |t| <= MAX_STRING ensures !(StringBytes(t) <= data[at..end]) {
        StringExactly(data, at, end, t, at + 2 + |t|);
      }
      OnlyTheRestOfTopics(data[at..end], topics, complete);
    } else {
      assert data[at..end] == [];
      if topics != [] && ShortTopics(topics) { FirstTopic(topics); }
    }
  }

  lemma OnlyTheRestOfTopics(bytes: seq<Byte>, topics: seq<seq<Byte>>, complete: bool)
    requires bytes != [] && NoTopic(bytes)
    ensures TopicsAs(bytes, topics, complete) <==> topics == [] && !complete
  {
    hide TopicBytes, StringBytes;
    NoTopicFirst();
    assert bytes[0..] == bytes;
    if topics != [] && ShortTopics(topics) {
      FirstTopic(topics);
      assert !(StringBytes(topics[0]) <= bytes);
      assert !(StringBytes(topics[0]) + TopicBytes(topics[1..]) <= bytes) by {
        Prefixes(StringBytes(topics[0]), TopicBytes(topics[1..]), bytes, 0, |bytes|);
      }
    }
  }

  lemma NoTopicFirst()
    ensures TopicBytes([]) == []
  {
  }

  lemma FirstTopic(topics: seq<seq<Byte>>)
    requires ShortTopics(topics) && topics != []
    ensures TopicBytes(topics) == StringBytes(topics[0]) + TopicBytes(topics[1..])
  {
  }

  /** An UNSUBSCRIBE likewise, with topics for filters; another type of packet is answered with 0. */
  lemma UnsubscribeReadExactly(data: seq<Byte>, r: UnsubscribeRead)
    requires IdReadable(data)
    ensures DecodeUnsubscribe(data) == r <==>
            if !(0xA0 <= data[0] <= 0xAF) then r == UnsubscribeRead(0, false, 0, [], false)
            else
              && var f := FrameOf(data);
              && (r.dup <==> data[0] >= 0xA8)
              && r.packetId <= 65535 && IntBytes(r.packetId) <= data[f.at..]
              && (if f.end < f.at + 2 then r.topics == [] && r.complete
                  else TopicsAs(data[f.at + 2..f.end], r.topics, r.complete))
              && r.rc == if r.complete then 1 else f.lengthBytes
  {
    hide FrameOf, ScanLength, ReadTopics, TopicsAs, IntOf, IntBytes;
    var f := FrameOf(data);
    IntExactly(data, f.at, r.packetId);
    ReadTopicsStep(data, f.at + 2, f.end);
    if f.at + 2 <= f.end { TopicsExactly(data, f.at + 2, f.end, r.topics, r.complete); }
  }
}
