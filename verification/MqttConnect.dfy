/** The CONNECT packet (MQTT 3.1.1, section 3.1; MQTT/MQTTConnectClient.c:27-121 and
    MQTT/MQTTConnectServer.c:30-108). */
module MqttConnect {
  import opened Bytes
  import opened MqttLength
  import opened MqttWire
  import opened Wrappers
  import opened MqttPackets

  const CONNECT: nat := 1
  const MQTT: seq<Byte> := [0x4D, 0x51, 0x54, 0x54]                  // "MQTT"
  const MQISDP: seq<Byte> := [0x4D, 0x51, 0x49, 0x73, 0x64, 0x70]    // "MQIsdp"

  datatype Will = Will(topic: seq<Byte>, message: seq<Byte>, qos: nat, retained: bool)

  datatype Connect = Connect(cleanSession: bool, keepAlive: nat, clientId: seq<Byte>, will: Option<Will>,
                             username: Option<seq<Byte>>, password: Option<seq<Byte>>) {
    predicate Valid() {
      && keepAlive <= 65535 && |clientId| <= MAX_STRING
      && (will.Some? ==> will.value.qos <= 2 && |will.value.topic| <= MAX_STRING && |will.value.message| <= MAX_STRING)
      && ShortOption(username) && ShortOption(password)
    }
  }

  predicate ShortOption(s: Option<seq<Byte>>) {
    s.Some? ==> |s.value| <= MAX_STRING
  }

  /** MQTTConnectFlags. */
  function Flags(c: Connect): Byte
    requires c.Valid()
  {
    128 * Bit(c.username.Some?) + 64 * Bit(c.password.Some?)
    + (if c.will.Some? then 32 * Bit(c.will.value.retained) + 8 * c.will.value.qos + 4 else 0)
    + 2 * Bit(c.cleanSession)
  }

  lemma FlagBits(c: Connect)
    requires c.Valid()
    ensures var f := Flags(c);
            && (f / 128 == 1 <==> c.username.Some?) && (f / 64 % 2 == 1 <==> c.password.Some?)
            && (f / 4 % 2 == 1 <==> c.will.Some?) && (f / 2 % 2 == 1 <==> c.cleanSession)
            && (c.will.Some? ==> f / 8 % 4 == c.will.value.qos && (f / 32 % 2 == 1 <==> c.will.value.retained))
  {
  }

  // ---------------------------------------------------------------------------------------------
  // Writing

  function ProtocolBytes(version: nat): seq<Byte> {
    if version == 4 then StringBytes(MQTT) + [4] else StringBytes(MQISDP) + [3]
  }

  function OptionBytes(s: Option<seq<Byte>>): (b: seq<Byte>)
    requires ShortOption(s)
    ensures |b| == if s.Some? then 2 + |s.value| else 0
  {
    if s.Some? then StringBytes(s.value) else []
  }

  function WillBytes(c: Connect): (b: seq<Byte>)
    requires c.Valid()
    ensures |b| == if c.will.Some? then 4 + |c.will.value.topic| + |c.will.value.message| else 0
  {
    if c.will.Some? then StringBytes(c.will.value.topic) + StringBytes(c.will.value.message) else []
  }

  function ConnectBody(version: nat, c: Connect): seq<Byte>
    requires c.Valid()
  {
    ProtocolBytes(version) + OptionsBytes(c)
  }

  function OptionsBytes(c: Connect): (b: seq<Byte>)
    requires c.Valid()
    ensures |b| >= 5
  {
    [Flags(c)] + (IntBytes(c.keepAlive) + (StringBytes(c.clientId)
      + (WillBytes(c) + (OptionBytes(c.username) + OptionBytes(c.password)))))
  }

  function ConnectBytes(version: nat, c: Connect): seq<Byte>
    requires c.Valid() && |ConnectBody(version, c)| < LENGTH_LIMIT
  {
    PacketBytes(HeaderByte(CONNECT, false, 0, false), ConnectBody(version, c))
  }

  // ---------------------------------------------------------------------------------------------
  // Reading

  /** memcmp over as many bytes as the shorter of the two has. */
  predicate AgreeSoFar(s: seq<Byte>, name: seq<Byte>) {
    var n := if |s| < |name| then |s| else |name|;
    s[..n] == name[..n]
  }

  /** MQTTPacket_checkVersion. */
  predicate CheckVersion(protocol: seq<Byte>, version: Byte) {
    (version == 3 && AgreeSoFar(protocol, MQISDP)) || (version == 4 && AgreeSoFar(protocol, MQTT))
  }

  /** The check lets through exactly the right name, the name cut short (even to nothing), and the
      name with something behind it. */
  lemma VersionCheckMeaning(protocol: seq<Byte>, version: Byte)
    ensures CheckVersion(protocol, version) <==>
              || (version == 3 && (protocol <= MQISDP || MQISDP <= protocol))
              || (version == 4 && (protocol <= MQTT || MQTT <= protocol))
  {
  }

  function DecodeWill(data: seq<Byte>, at: nat, end: nat, flags: Byte): Option<(Option<Will>, nat)>
    requires end <= |data|
  {
    if flags / 4 % 2 == 1 then
      var (topic, at) :- ReadString(data, at, end);
      var (message, at) :- ReadString(data, at, end);
      Some((Some(Will(topic, message, flags / 8 % 4, flags / 32 % 2 == 1)), at))
    else Some((None, at))
  }

  function DecodeCredentials(data: seq<Byte>, at: nat, end: nat, flags: Byte)
    : Option<(Option<seq<Byte>>, Option<seq<Byte>>)>
    requires at <= end <= |data|
  {
    if flags / 128 == 1 then
      if end - at < 3 then None
      else
        var (username, at) :- ReadString(data, at, end);
        if flags / 64 % 2 == 1 then
          if end - at < 3 then None
          else
            var (password, at) :- ReadString(data, at, end);
            Some((Some(username), Some(password)))
        else Some((Some(username), None))
    else if flags / 64 % 2 == 1 then None
    else Some((None, None))
  }

  /** Everything behind the protocol name: version, flags, keep-alive time, then the strings. */
  function DecodeOptions(data: seq<Byte>, at: nat, end: nat, protocol: seq<Byte>): Option<Connect>
    requires end <= |data| && at + 4 <= |data|
  {
    if !CheckVersion(protocol, data[at]) then None
    else
      var flags := data[at + 1];
      var (clientId, at') :- ReadString(data, at + 4, end);
      var (will, at'') :- DecodeWill(data, at', end, flags);
      var (username, password) :- DecodeCredentials(data, at'', end, flags);
      Some(Connect(flags / 2 % 2 == 1, IntOf(data, at + 2), clientId, will, username, password))
  }

  /** The code reads four bytes behind the protocol name without asking whether they are there. */
  ghost predicate ConnectReadable(data: seq<Byte>, len: nat) {
    && HoldsLength(data) && len <= |data|
    && var r := ReadString(data, FrameOf(data).at, len);
       r.Some? ==> r.value.1 + 4 <= |data|
  }

  /** MQTTDeserialize_connect: the options stored when it returns 1, None when it returns 0. */
  function DecodeConnect(data: seq<Byte>, len: nat): Option<Connect>
    requires ConnectReadable(data, len)
  {
    if data[0] / 16 != CONNECT then None
    else
      var (protocol, at) :- ReadString(data, FrameOf(data).at, len);
      DecodeOptions(data, at, len, protocol)
  }

  // ---------------------------------------------------------------------------------------------
  // Round trip

  lemma TakeString(data: seq<Byte>, at: nat, end: nat, s: seq<Byte>, rest: seq<Byte>)
    requires |s| <= MAX_STRING && at <= end <= |data| && data[at..end] == StringBytes(s) + rest
    ensures ReadString(data, at, end) == Some((s, at + 2 + |s|))
    ensures end - (at + 2 + |s|) == |rest| && data[at + 2 + |s|..end] == rest
  {
    var all := StringBytes(s) + rest;
    var n := 2 + |s|;
    assert |data[at..end]| == end - at;
    SliceOf(data, at, all, 0, n);
    assert all[..n] == StringBytes(s);
    StringRoundTrip(s, data, at, end);
    SliceOf(data, at, all, n, |all|);
    assert all[n..] == rest;
  }

  lemma WillRoundTrip(c: Connect, data: seq<Byte>, at: nat, end: nat, rest: seq<Byte>)
    requires c.Valid() && at <= end <= |data| && data[at..end] == WillBytes(c) + rest
    ensures var next := at + |WillBytes(c)|;
            && DecodeWill(data, at, end, Flags(c)) == Some((c.will, next))
            && next <= end && data[next..end] == rest
  {
    hide StringBytes, ReadString, Flags;
    FlagBits(c);
    if c.will.Some? {
      var w := c.will.value;
      assert WillBytes(c) + rest == StringBytes(w.topic) + (StringBytes(w.message) + rest);
      TakeString(data, at, end, w.topic, StringBytes(w.message) + rest);
      TakeString(data, at + 2 + |w.topic|, end, w.message, rest);
    } else {
      assert WillBytes(c) + rest == rest;
    }
  }

  /** The reader asks for three bytes where an empty user name or password leaves two, and for a
      user name whenever there is a password. */
  predicate Acceptable(c: Connect) {
    && (c.password.Some? ==> c.username.Some? && |c.password.value| > 0)
    && (c.username.Some? && c.password == None ==> |c.username.value| > 0)
  }

  lemma CredentialsRoundTrip(c: Connect, data: seq<Byte>, at: nat, end: nat)
    requires c.Valid() && at <= end <= |data| && data[at..end] == OptionBytes(c.username) + OptionBytes(c.password)
    ensures DecodeCredentials(data, at, end, Flags(c)) ==
            if Acceptable(c) then Some((c.username, c.password)) else None
  {
    hide StringBytes, ReadString, Flags;
    FlagBits(c);
    assert end - at == |OptionBytes(c.username)| + |OptionBytes(c.password)|;
    if c.username.Some? {
      TakeString(data, at, end, c.username.value, OptionBytes(c.password));
      if c.password.Some? {
        assert OptionBytes(c.password) == StringBytes(c.password.value) + [];
        TakeString(data, at + 2 + |c.username.value|, end, c.password.value, []);
      }
    }
  }

  lemma BodyShape(version: nat, c: Connect)
    requires version in {3, 4} && c.Valid()
    ensures ConnectBody(version, c) ==
              StringBytes(if version == 4 then MQTT else MQISDP) + ([version] + OptionsBytes(c))
  {
  }

  /** Reading a serialized CONNECT back gives the options exactly when the credentials are of the
      kind the reader accepts; otherwise it fails. */
  lemma ConnectRoundTrip(version: nat, c: Connect, rest: seq<Byte>)
    requires version in {3, 4} && c.Valid() && |ConnectBody(version, c)| < LENGTH_LIMIT
    ensures var packet := ConnectBytes(version, c);
            && ConnectReadable(packet + rest, |packet|)
            && DecodeConnect(packet + rest, |packet|) == if Acceptable(c) then Some(c) else None
  {
    hide StringBytes, ReadString, FrameOf, ScanLength, PacketBytes, HeaderByte, DecodeOptions, OptionsBytes,
        ConnectBody;
    var name := if version == 4 then MQTT else MQISDP;
    BodyShape(version, c);
    var body := ConnectBody(version, c);
    var packet := ConnectBytes(version, c);
    var data, len := packet + rest, |packet|;
    FrameRoundTrip(HeaderByte(CONNECT, false, 0, false), body, rest);
    HeaderBits(CONNECT, false, 0, false);
    var at := FrameOf(data).at;
    var options := OptionsBytes(c);
    TakeString(data, at, len, name, [version] + options);
    OptionsRoundTrip(version, c, data, at + 2 + |name|, len);
  }

  lemma OptionsRoundTrip(version: nat, c: Connect, data: seq<Byte>, at: nat, end: nat)
    requires version in {3, 4} && c.Valid() && at <= end <= |data| && data[at..end] == [version] + OptionsBytes(c)
    ensures at + 4 <= |data|
    ensures DecodeOptions(data, at, end, if version == 4 then MQTT else MQISDP) ==
              if Acceptable(c) then Some(c) else None
  {
    hide StringBytes, ReadString, DecodeWill, DecodeCredentials, Flags, WillBytes, OptionBytes;
    var all := [version] + OptionsBytes(c);
    assert |data[at..end]| == end - at;
    assert all[0] == data[at] && all[1] == data[at + 1] by {
      assert data[at] == data[at..end][0] && data[at + 1] == data[at..end][1];
    }
    FlagBits(c);
    SliceOf(data, at, all, 2, 4);
    assert all[2..4] == IntBytes(c.keepAlive);
    IntRoundTrip(c.keepAlive, data, at + 2);
    SliceOf(data, at, all, 4, |all|);
    var credentials := OptionBytes(c.username) + OptionBytes(c.password);
    assert all[4..] == StringBytes(c.clientId) + (WillBytes(c) + credentials);
    TakeString(data, at + 4, end, c.clientId, WillBytes(c) + credentials);
    var at' := at + 6 + |c.clientId|;
    WillRoundTrip(c, data, at', end, credentials);
    CredentialsRoundTrip(c, data, at' + |WillBytes(c)|, end);
  }

  // ---------------------------------------------------------------------------------------------
  // The code

  datatype WillOptions = WillOptions(topicName: MqttString, message: MqttString, qos: nat, retained: bool)

  datatype ConnectOptions = ConnectOptions(version: nat, cleanSession: bool,
                                           keepAliveInterval: nat, clientId: MqttString,
                                           will: Option<WillOptions>,
                                           username: Option<MqttString>, password: Option<MqttString>) {
    predicate Valid() {
      && version in {3, 4} && keepAliveInterval <= 65535 && clientId.Valid()
      && (will.Some? ==> will.value.topicName.Valid() && will.value.message.Valid() && will.value.qos <= 2)
      && (username.Some? ==> username.value.Valid()) && (password.Some? ==> password.value.Valid())
      && |ConnectBody(version, Meant())| < LENGTH_LIMIT
    }

    function Meant(): (c: Connect)
      requires keepAliveInterval <= 65535 && clientId.Valid()
      requires will.Some? ==> will.value.topicName.Valid() && will.value.message.Valid() && will.value.qos <= 2
      requires (username.Some? ==> username.value.Valid()) && (password.Some? ==> password.value.Valid())
      ensures c.Valid()
    {
      Connect(cleanSession, keepAliveInterval, clientId.Content(),
              if will.Some? then Some(Will(will.value.topicName.Content(), will.value.message.Content(),
                                           will.value.qos, will.value.retained)) else None,
              ContentOf(username), ContentOf(password))
    }
  }

  function ContentOf(s: Option<MqttString>): Option<seq<Byte>> {
    if s.Some? then Some(s.value.Content()) else None
  }

  /** MQTTSerialize_connectLength. */
  method ConnectLength(options: ConnectOptions) returns (len: nat)
    requires options.Valid()
    ensures len == |ConnectBody(options.version, options.Meant())|
  {
    len := if options.version == 3 then 12 else 10;
    options.clientId.LengthOfContent();
    len := len + options.clientId.Length() + 2;
    if options.will.Some? {
      options.will.value.topicName.LengthOfContent();
      options.will.value.message.LengthOfContent();
      len := len + options.will.value.topicName.Length() + 2 + options.will.value.message.Length() + 2;
    }
    if options.username.Some? {
      options.username.value.LengthOfContent();
      len := len + options.username.value.Length() + 2;
    }
    if options.password.Some? {
      options.password.value.LengthOfContent();
      len := len + options.password.value.Length() + 2;
    }
  }

  method SerializeConnect(buf: array<Byte>, options: ConnectOptions) returns (rc: int)
    requires options.Valid()
    modifies buf
    ensures var body := ConnectBody(options.version, options.Meant());
            if PacketLen(|body|) > buf.Length
            then rc == -2 && buf[..] == old(buf[..])
            else var packet := ConnectBytes(options.version, options.Meant());
                 rc == |packet| <= PacketLen(|body|) && Wrote(old(buf[..]), buf[..], 0, packet)
  {
    hide Wrote, EncodeLength, HeaderByte, OptionsBytes, ProtocolBytes;
    ghost var c := options.Meant();
    ghost var body := ConnectBody(options.version, c);
    PacketLenIsEnough(|body|);
    var remaining := ConnectLength(options);
    if PacketLen(remaining) > buf.Length {
      return BUFFER_TOO_SHORT;
    }
    var at := StartPacket(buf, HeaderByte(CONNECT, false, 0, false), remaining);
    ghost var b1 := buf[..];
    at := WriteProtocol(buf, at, options.version);
    ghost var b2 := buf[..];
    rc := WriteOptions(buf, at, options);
    WroteBoth(b1, b2, buf[..], at - |ProtocolBytes(options.version)|, ProtocolBytes(options.version), OptionsBytes(c));
    WroteBoth(old(buf[..]), b1, buf[..], 0, [HeaderByte(CONNECT, false, 0, false)] + EncodeLength(remaining), body);
  }

  method WriteProtocol(buf: array<Byte>, at: nat, version: nat) returns (next: nat)
    requires at + |ProtocolBytes(version)| <= buf.Length
    modifies buf
    ensures next == at + |ProtocolBytes(version)| && Wrote(old(buf[..]), buf[..], at, ProtocolBytes(version))
  {
    hide Wrote, StringBytes;
    var name := if version == 4 then MQTT else MQISDP;
    next := WriteCounted(buf, at, name);
    ghost var b1 := buf[..];
    next := WriteChar(buf, next, if version == 4 then 4 else 3);
    WroteBoth(old(buf[..]), b1, buf[..], at, StringBytes(name), [if version == 4 then 4 else 3]);
  }

  method ConnectFlags(options: ConnectOptions) returns (flags: Byte)
    requires options.Valid()
    ensures flags == Flags(options.Meant())
  {
    hide ConnectBody, Flags;
    FlagsSum(options.Meant());
    flags := 2 * Bit(options.cleanSession);
    if options.will.Some? {
      flags := flags + 4 + 8 * options.will.value.qos + 32 * Bit(options.will.value.retained);
    }
    if options.username.Some? {
      flags := flags + 128;
    }
    if options.password.Some? {
      flags := flags + 64;
    }
  }

  method WriteOptions(buf: array<Byte>, at: nat, options: ConnectOptions) returns (next: nat)
    requires options.Valid() && at + |OptionsBytes(options.Meant())| <= buf.Length
    modifies buf
    ensures var bytes := OptionsBytes(options.Meant());
            next == at + |bytes| && Wrote(old(buf[..]), buf[..], at, bytes)
  {
    hide Wrote, StringBytes, IntBytes, Flags, ConnectBody, WillBytes, OptionBytes;
    ghost var c := options.Meant();
    ghost var tail := WillBytes(c) + (OptionBytes(c.username) + OptionBytes(c.password));
    var flags := ConnectFlags(options);
    next := WriteChar(buf, at, flags);
    ghost var b1 := buf[..];
    next := WriteInt(buf, next, options.keepAliveInterval);
    ghost var b2 := buf[..];
    next := WriteString(buf, next, options.clientId);
    ghost var b3 := buf[..];
    next := WriteTail(buf, next, options);
    WroteBoth(b2, b3, buf[..], at + 3, StringBytes(c.clientId), tail);
    WroteBoth(b1, b2, buf[..], at + 1, IntBytes(c.keepAlive), StringBytes(c.clientId) + tail);
    WroteBoth(old(buf[..]), b1, buf[..], at, [Flags(c)], IntBytes(c.keepAlive) + (StringBytes(c.clientId) + tail));
  }

  method WriteTail(buf: array<Byte>, at: nat, options: ConnectOptions) returns (next: nat)
    requires options.Valid()
    requires var c := options.Meant();
             at + |WillBytes(c)| + |OptionBytes(c.username)| + |OptionBytes(c.password)| <= buf.Length
    modifies buf
    ensures var c := options.Meant();
            var bytes := WillBytes(c) + (OptionBytes(c.username) + OptionBytes(c.password));
            next == at + |bytes| && Wrote(old(buf[..]), buf[..], at, bytes)
  {
    hide Wrote, ConnectBody, WillBytes, OptionBytes;
    ghost var c := options.Meant();
    next := WriteWill(buf, at, options);
    ghost var b1 := buf[..];
    next := WriteCredentials(buf, next, options.username, options.password);
    WroteBoth(old(buf[..]), b1, buf[..], at, WillBytes(c), OptionBytes(c.username) + OptionBytes(c.password));
  }

  method WriteCredentials(buf: array<Byte>, at: nat, username: Option<MqttString>, password: Option<MqttString>)
    returns (next: nat)
    requires (username.Some? ==> username.value.Valid()) && (password.Some? ==> password.value.Valid())
    requires at + |OptionBytes(ContentOf(username))| + |OptionBytes(ContentOf(password))| <= buf.Length
    modifies buf
    ensures var bytes := OptionBytes(ContentOf(username)) + OptionBytes(ContentOf(password));
            next == at + |bytes| && Wrote(old(buf[..]), buf[..], at, bytes)
  {
    hide Wrote, StringBytes;
    next := WriteOptionString(buf, at, username);
    ghost var b1 := buf[..];
    next := WriteOptionString(buf, next, password);
    WroteBoth(old(buf[..]), b1, buf[..], at, OptionBytes(ContentOf(username)), OptionBytes(ContentOf(password)));
  }

  lemma FlagsSum(c: Connect)
    requires c.Valid()
    ensures Flags(c) == 2 * Bit(c.cleanSession)
                        + (if c.will.Some? then 4 + 8 * c.will.value.qos + 32 * Bit(c.will.value.retained) else 0)
                        + (if c.username.Some? then 128 else 0) + (if c.password.Some? then 64 else 0)
  {
  }

  lemma NothingWrote(data: seq<Byte>, at: nat)
    ensures at <= |data| ==> Wrote(data, data, at, [])
  {
  }

  method WriteWill(buf: array<Byte>, at: nat, options: ConnectOptions) returns (next: nat)
    requires options.Valid() && at + |WillBytes(options.Meant())| <= buf.Length
    modifies buf
    ensures var bytes := WillBytes(options.Meant());
            next == at + |bytes| && Wrote(old(buf[..]), buf[..], at, bytes)
  {
    hide Wrote, StringBytes, ConnectBody;
    next := at;
    NothingWrote(buf[..], at);
    if options.will.Some? {
      var w := options.will.value;
      next := WriteString(buf, next, w.topicName);
      ghost var b1 := buf[..];
      next := WriteString(buf, next, w.message);
      WroteBoth(old(buf[..]), b1, buf[..], at, StringBytes(w.topicName.Content()), StringBytes(w.message.Content()));
    }
  }

  method WriteOptionString(buf: array<Byte>, at: nat, s: Option<MqttString>) returns (next: nat)
    requires (s.Some? ==> s.value.Valid()) && at + (if s.Some? then 2 + |s.value.Content()| else 0) <= buf.Length
    modifies buf
    ensures var bytes := OptionBytes(ContentOf(s));
            next == at + |bytes| && Wrote(old(buf[..]), buf[..], at, bytes)
  {
    next := at;
    if s.Some? {
      next := WriteString(buf, next, s.value);
    }
  }

  method DeserializeConnect(buf: array<Byte>, len: nat)
    returns (rc: int, cleanSession: bool, keepAliveInterval: nat, clientId: seq<Byte>, will: Option<Will>,
             username: Option<seq<Byte>>, password: Option<seq<Byte>>)
    requires ConnectReadable(buf[..], len)
    ensures rc in {0, 1}
    ensures DecodeConnect(buf[..], len) ==
            if rc == 1 then Some(Connect(cleanSession, keepAliveInterval, clientId, will, username, password)) else None
  {
    hide ScanLength, ValueOf, FrameOf, ReadString;
    rc, cleanSession, keepAliveInterval, clientId, will, username, password := 0, false, 0, [], None, None, None;
    var header := buf[0];
    if header / 16 != CONNECT { return; }
    var lengthBytes, _ := DecodeBuf(buf);
    var curdata := 1 + lengthBytes;
    var ok, protocol, next := ReadLenString(buf, curdata, len);
    if !ok { return; }
    curdata := next;
    var version := buf[curdata];
    if CheckVersion(protocol, version) {
      var flags := buf[curdata + 1];
      cleanSession := flags / 2 % 2 == 1;
      keepAliveInterval := 256 * (buf[curdata + 2] as nat) + buf[curdata + 3];
      curdata := curdata + 4;
      ok, clientId, curdata := ReadLenString(buf, curdata, len);
      if !ok { return; }
      if flags / 4 % 2 == 1 {
        var topic, message;
        ok, topic, curdata := ReadLenString(buf, curdata, len);
        if !ok { return; }
        ok, message, curdata := ReadLenString(buf, curdata, len);
        if !ok { return; }
        will := Some(Will(topic, message, flags / 8 % 4, flags / 32 % 2 == 1));
      }
      var accepted;
      accepted, username, password := ReadCredentials(buf, curdata, len, flags);
      if !accepted { return; }
      rc := 1;
    }
  }

  /** The end of MQTTDeserialize_connect. */
  method ReadCredentials(buf: array<Byte>, at: nat, end: nat, flags: Byte)
    returns (ok: bool, username: Option<seq<Byte>>, password: Option<seq<Byte>>)
    requires at <= end <= buf.Length
    ensures DecodeCredentials(buf[..], at, end, flags) == if ok then Some((username, password)) else None
  {
    ok, username, password := false, None, None;
    var curdata := at;
    var s;
    if flags / 128 == 1 {
      if end - curdata < 3 { return; }
      ok, s, curdata := ReadLenString(buf, curdata, end);
      if !ok { return; }
      username := Some(s);
      if flags / 64 % 2 == 1 {
        ok := end - curdata >= 3;
        if !ok { return; }
        ok, s, curdata := ReadLenString(buf, curdata, end);
        if !ok { return; }
        password := Some(s);
      }
    } else if flags / 64 % 2 == 1 {
      return;
    }
    ok := true;
  }
}
