/** Two-byte integers and length-prefixed strings, read and written through a moving pointer
    (MQTT/MQTTPacket.c:125-252).  Strings are those of MQTT 3.1.1, section 1.5.3. */
module MqttWire {
  import opened Bytes
  import opened Wrappers

  const MAX_STRING: nat := 65535

  // The C structure: a NUL-terminated string, or a counted one.
  datatype MqttString = MqttString(cstring: Option<seq<Byte>>, lenstring: seq<Byte>) {
    /** Given one way only, and short enough for its length to fit two bytes. */
    predicate Valid() {
      && (cstring == None || lenstring == [])
      && |Content()| <= MAX_STRING
    }

    function Content(): seq<Byte> {
      if |lenstring| > 0 then lenstring else if cstring.Some? then cstring.value else []
    }

    /** MQTTstrlen asks for the C string first, writeMQTTString for the counted one. */
    function Length(): nat {
      if cstring.Some? then |cstring.value| else |lenstring|
    }

    /** The length the packet size is computed from is the length written, unless the string is
        given both ways with different lengths. */
    lemma LengthOfContent()
      ensures Length() == |Content()| <==>
                cstring == None || lenstring == [] || |cstring.value| == |lenstring|
    {
    }
  }

  function IntBytes(n: nat): (s: seq<Byte>)
    requires n <= 65535
    ensures |s| == 2 && IntOf(s, 0) == n
  {
    [n / 256, n % 256]
  }

  function IntOf(data: seq<Byte>, at: nat): nat
    requires at + 2 <= |data|
  {
    256 * (data[at] as nat) + data[at + 1]
  }

  function StringBytes(s: seq<Byte>): (r: seq<Byte>)
    requires |s| <= MAX_STRING
    ensures |r| == 2 + |s|
  {
    IntBytes(|s|) + s
  }

  /** readMQTTLenString: the string at `at`, provided it ends by `end`, and where it ends. */
  function ReadString(data: seq<Byte>, at: nat, end: nat): (r: Option<(seq<Byte>, nat)>)
    requires end <= |data|
    ensures r.Some? ==> at + 2 <= r.value.1 <= end && r.value.1 == at + 2 + |r.value.0|
  {
    if at + 1 < end && at + 2 + IntOf(data, at) <= end
    then Some((data[at + 2..at + 2 + IntOf(data, at)], at + 2 + IntOf(data, at)))
    else None
  }

  lemma IntRoundTrip(n: nat, data: seq<Byte>, at: nat)
    requires n <= 65535 && at + 2 <= |data| && data[at..at + 2] == IntBytes(n)
    ensures IntOf(data, at) == n
  {
    assert data[at] == data[at..at + 2][0] && data[at + 1] == data[at..at + 2][1];
  }

  lemma StringRoundTrip(s: seq<Byte>, data: seq<Byte>, at: nat, end: nat)
    requires |s| <= MAX_STRING && at + 2 + |s| <= end <= |data|
    requires data[at..at + 2 + |s|] == StringBytes(s)
    ensures ReadString(data, at, end) == Some((s, at + 2 + |s|))
  {
    var r := StringBytes(s);
    assert data[at] == data[at..at + 2 + |s|][0] && data[at + 1] == data[at..at + 2 + |s|][1];
    assert data[at + 2..at + 2 + |s|] == data[at..at + 2 + |s|][2..];
  }

  /** What is read as a string is the counted form of that string. */
  lemma ReadIsBytes(data: seq<Byte>, at: nat, end: nat)
    requires end <= |data| && ReadString(data, at, end).Some?
    ensures var (s, next) := ReadString(data, at, end).value;
            |s| <= MAX_STRING && data[at..next] == StringBytes(s)
  {
    var (s, next) := ReadString(data, at, end).value;
    assert data[at..next] == data[at..at + 2] + s;
  }

  // ---------------------------------------------------------------------------------------------
  // The code.  Each writer returns the pointer moved past what it wrote.

  method WriteChar(buf: array<Byte>, at: nat, c: Byte) returns (next: nat)
    requires at < buf.Length
    modifies buf
    ensures next == at + 1 && Wrote(old(buf[..]), buf[..], at, [c])
  {
    buf[at] := c;
    next := at + 1;
  }

  method WriteInt(buf: array<Byte>, at: nat, n: nat) returns (next: nat)
    requires at + 2 <= buf.Length && n <= 65535
    modifies buf
    ensures next == at + 2 && Wrote(old(buf[..]), buf[..], at, IntBytes(n))
  {
    buf[at] := n / 256;
    buf[at + 1] := n % 256;
    next := at + 2;
  }

  method WriteBytes(buf: array<Byte>, at: nat, s: seq<Byte>) returns (next: nat)
    requires at + |s| <= buf.Length
    modifies buf
    ensures next == at + |s| && Wrote(old(buf[..]), buf[..], at, s)
  {
    var i := 0;
    while i < |s|
      invariant 0 <= i <= |s|
      invariant forall j | 0 <= j < buf.Length :: buf[j] == if at <= j < at + i then s[j - at] else old(buf[..])[j]
    {
      buf[at + i] := s[i];
      i := i + 1;
    }
    next := at + |s|;
  }

  method WriteCounted(buf: array<Byte>, at: nat, s: seq<Byte>) returns (next: nat)
    requires |s| <= MAX_STRING && at + 2 + |s| <= buf.Length
    modifies buf
    ensures next == at + 2 + |s| && Wrote(old(buf[..]), buf[..], at, StringBytes(s))
  {
    next := WriteInt(buf, at, |s|);
    ghost var b1 := buf[..];
    next := WriteBytes(buf, next, s);
    WroteBoth(old(buf[..]), b1, buf[..], at, IntBytes(|s|), s);
  }

  method WriteString(buf: array<Byte>, at: nat, s: MqttString) returns (next: nat)
    requires |s.Content()| <= MAX_STRING && at + 2 + |s.Content()| <= buf.Length
    modifies buf
    ensures next == at + 2 + |s.Content()| && Wrote(old(buf[..]), buf[..], at, StringBytes(s.Content()))
  {
    hide Wrote;
    if |s.lenstring| > 0 {
      next := WriteCounted(buf, at, s.lenstring);
    } else if s.cstring.Some? {
      next := WriteCounted(buf, at, s.cstring.value);
    } else {
      next := WriteInt(buf, at, 0);
      assert StringBytes([]) == IntBytes(0);
    }
  }

  /** readMQTTLenString over a buffer, with the pointer moved as far as the code moves it. */
  method ReadLenString(buf: array<Byte>, at: nat, end: nat) returns (ok: bool, s: seq<Byte>, next: nat)
    requires end <= buf.Length
    ensures ok == ReadString(buf[..], at, end).Some?
    ensures ok ==> ReadString(buf[..], at, end).value == (s, next)
  {
    ok, s, next := false, [], at;
    if end > at && end - at > 1 {
      var n := 256 * (buf[at] as nat) + buf[at + 1];
      next := at + 2;
      if next + n <= end {
        s := buf[next..next + n];
        next := next + n;
        ok := true;
      }
    }
  }
}
