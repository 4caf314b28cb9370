/** Reading one packet off a stream: MQTTPacket_read, which waits for its bytes, and
    MQTTPacket_readnb, which is called again and again as they trickle in
    (MQTT/MQTTPacket.c:54-81 and 290-411). */
module MqttReader {
  import opened Bytes
  import opened MqttLength

  /** What reading at some position of a stream comes to.  `bytes` is what ends up in the buffer:
      the length field is written back re-encoded, so it may be shorter than it was on the wire. */
  datatype Outcome = Incomplete | Failed | Packet(kind: nat, bytes: seq<Byte>, used: nat)

  function Head(data: seq<Byte>, at: nat, n: nat): (h: seq<Byte>)
    requires at + 1 + n <= |data|
    ensures 2 <= |h|
  {
    [data[at]] + EncodeLength(ValueOf(data[at + 1..at + 1 + n]))
  }

  /** The packet whose length field takes n bytes, if it fits the buffer and has arrived. */
  function Body(data: seq<Byte>, at: nat, n: nat, buflen: nat, missing: Outcome): (r: Outcome)
    requires at + 1 + n <= |data| && !missing.Packet?
    ensures r.Packet? ==> 0 < r.used && at + r.used <= |data| && |r.bytes| <= buflen
  {
    var size := ValueOf(data[at + 1..at + 1 + n]);
    var head := Head(data, at, n);
    if size + |head| > buflen then Failed
    else if |data| < at + 1 + n + size then missing
    else Packet(data[at] / 16, head + data[at + 1 + n..at + 1 + n + size], 1 + n + size)
  }

  /** The non-blocking reader, given all the bytes that have arrived. */
  function Parse(data: seq<Byte>, at: nat, buflen: nat): (r: Outcome)
    ensures r.Packet? ==> 0 < r.used && at + r.used <= |data| && |r.bytes| <= buflen
  {
    if |data| <= at then Incomplete
    else match ScanLength(data, at + 1)
      case More => Incomplete
      case Bad => Failed
      case Done(n) => Body(data, at, n, buflen, Incomplete)
  }

  /** How many length bytes the blocking reader consumes: it stops at four, or at the end of the
      stream, without complaint. */
  function DecodedBytes(data: seq<Byte>, at: nat, k: nat := 0): (n: nat)
    requires at + k <= |data| && k <= MAX_LENGTH_BYTES
    ensures k <= n <= MAX_LENGTH_BYTES && at + n <= |data|
    decreases MAX_LENGTH_BYTES - k
  {
    if k == MAX_LENGTH_BYTES || |data| == at + k then k
    else if data[at + k] < 128 then k + 1
    else DecodedBytes(data, at, k + 1)
  }

  /** The blocking reader on a stream that ends after `data`. */
  function BlockingRead(data: seq<Byte>, at: nat, buflen: nat): (r: Outcome)
    ensures r.Packet? ==> 0 < r.used && at + r.used <= |data| && |r.bytes| <= buflen
  {
    if |data| <= at then Failed
    else Body(data, at, DecodedBytes(data, at + 1), buflen, Failed)
  }

  lemma {:induction false} DecodedScan(data: seq<Byte>, at: nat, k: nat)
    requires at + k <= |data| && k <= MAX_LENGTH_BYTES
    ensures match ScanLength(data, at, k)
      case Done(n) => DecodedBytes(data, at, k) == n
      case Bad => DecodedBytes(data, at, k) == MAX_LENGTH_BYTES
      case More => at + DecodedBytes(data, at, k) == |data|
    decreases MAX_LENGTH_BYTES - k
  {
    if k < MAX_LENGTH_BYTES && at + k < |data| { DecodedScan(data, at, k + 1); }
  }

  // What an outcome comes to once the stream has ended: waiting for more is then in vain.
  function AtEnd(r: Outcome): Outcome {
    if r == Incomplete then Failed else r
  }

  /** The blocking reader makes up a packet that the other one does not see: the stream ends inside a
      length field whose bytes so far add up to 0, or a length field announces a fifth byte and as much
      as its first four say is there; either way it must fit the buffer. */
  predicate Misread(data: seq<Byte>, at: nat, buflen: nat) {
    at < |data| &&
    match ScanLength(data, at + 1)
    case More => ValueOf(data[at + 1..]) == 0 && 2 <= buflen
    case Bad =>
      var size := ValueOf(data[at + 1..at + 1 + MAX_LENGTH_BYTES]);
      1 + |EncodeLength(size)| + size <= buflen && at + 1 + MAX_LENGTH_BYTES + size <= |data|
    case Done(_) => false
  }

  /** At any place of any stream, the two readers agree if and only if the blocking one does not
      misread it. */
  lemma ReadersAgree(data: seq<Byte>, at: nat, buflen: nat)
    ensures BlockingRead(data, at, buflen) == AtEnd(Parse(data, at, buflen)) <==> !Misread(data, at, buflen)
    ensures Misread(data, at, buflen) ==> BlockingRead(data, at, buflen).Packet? && !Parse(data, at, buflen).Packet?
  {
    if at < |data| {
      DecodedScan(data, at + 1, 0);
      var n := DecodedBytes(data, at + 1);
      hide ScanLength, DecodedBytes, ValueOf;
      if ScanLength(data, at + 1) == More {
        assert data[at + 1..at + 1 + n] == data[at + 1..];
        ShortHead(data[at + 1..]);
      }
    }
  }

  lemma ShortHead(s: seq<Byte>)
    ensures ValueOf(s) == 0 ==> |EncodeLength(ValueOf(s))| == 1
  {
  }

  /** A header byte and then the end of the stream: a packet for the one, nothing for the other. */
  lemma HeaderAlone()
    ensures BlockingRead([0xC0], 0, 5) == Packet(12, [0xC0, 0], 1)
    ensures Parse([0xC0], 0, 5) == Incomplete
  {
    var data: seq<Byte> := [0xC0];
    assert DecodedBytes(data, 1) == 0 && data[1..1] == [];
    ValueOfNothing();
    assert Head(data, 0, 0) == [0xC0, 0] && [0xC0, 0] + data[1..1] == [0xC0, 0];
  }

  lemma BadLength(data: seq<Byte>, at: nat, buflen: nat)
    ensures ScanLength(data, at + 1) == Bad ==> Parse(data, at, buflen) == Failed
  {
  }

  lemma TooLarge(data: seq<Byte>, at: nat, n: nat, buflen: nat)
    requires at < |data| && ScanLength(data, at + 1) == Done(n)
    requires ValueOf(data[at + 1..at + 1 + n]) + |Head(data, at, n)| > buflen
    ensures Parse(data, at, buflen) == Failed
  {
  }

  /** What has arrived is never judged differently because more arrives later. */
  lemma ParseMonotonic(data: seq<Byte>, more: seq<Byte>, at: nat, buflen: nat)
    requires Parse(data, at, buflen) != Incomplete
    ensures Parse(data + more, at, buflen) == Parse(data, at, buflen)
  {
    ScanMonotonic(data, more, at + 1, 0);
    var longer := data + more;
    match ScanLength(data, at + 1) {
      case Bad =>
      case Done(n) =>
        assert longer[at + 1..at + 1 + n] == data[at + 1..at + 1 + n];
        var size := ValueOf(data[at + 1..at + 1 + n]);
        if at + 1 + n + size <= |data| {
          assert longer[at + 1 + n..at + 1 + n + size] == data[at + 1 + n..at + 1 + n + size];
        }
    }
  }

  lemma {:induction false} ScanMonotonic(data: seq<Byte>, more: seq<Byte>, at: nat, k: nat)
    requires k <= MAX_LENGTH_BYTES
    ensures ScanLength(data, at, k) != More ==> ScanLength(data + more, at, k) == ScanLength(data, at, k)
    decreases MAX_LENGTH_BYTES - k
  {
    if k < MAX_LENGTH_BYTES && at + k < |data| { ScanMonotonic(data, more, at, k + 1); }
  }

  lemma {:induction false} ScanIsBad(data: seq<Byte>, at: nat, k: nat)
    requires k <= MAX_LENGTH_BYTES && at + MAX_LENGTH_BYTES <= |data|
    requires forall i | at + k <= i < at + MAX_LENGTH_BYTES :: 128 <= data[i]
    ensures ScanLength(data, at, k) == Bad
    decreases MAX_LENGTH_BYTES - k
  {
    if k < MAX_LENGTH_BYTES { ScanIsBad(data, at, k + 1); }
  }

  lemma {:induction false} ScanPrefix(data: seq<Byte>, p: nat, at: nat, k: nat)
    requires at + k <= p <= |data| && k <= MAX_LENGTH_BYTES
    ensures var r := ScanLength(data, at, k);
            r.Done? && at + r.n <= p ==> ScanLength(data[..p], at, k) == r
    decreases MAX_LENGTH_BYTES - k
  {
    if k < MAX_LENGTH_BYTES && at + k < p { ScanPrefix(data, p, at, k + 1); }
  }

  lemma {:induction false} ScanIsMore(data: seq<Byte>, at: nat, k: nat)
    requires at + k <= |data| < at + MAX_LENGTH_BYTES
    requires forall i | at + k <= i < |data| :: 128 <= data[i]
    ensures ScanLength(data, at, k) == More
    decreases |data| - k
  {
    if at + k < |data| { ScanIsMore(data, at, k + 1); }
  }

  const READ_ERROR: int := -1

  ghost predicate Offers(schedule: seq<int>) {
    forall i | 0 <= i < |schedule| :: -1 <= schedule[i]
  }

  /** MQTTTransport together with the stream behind it and the buffer being filled.  `schedule` says
      what each call of getfn does: -1 reports an error, k delivers at most k bytes. */
  class Transport {
    const data: seq<Byte>
    const buf: array<Byte>
    var pos: nat
    var schedule: seq<int>
    var multiplier: nat
    var remLen: nat
    var len: nat
    var state: nat
    ghost var start: nat    // where in the stream the current packet began
    ghost var broken: bool  // getfn has reported an error

    ghost predicate Valid()
      reads this, buf
    {
      && start <= pos <= |data| && 5 <= buf.Length && state <= 2
      && Offers(schedule)
      && (state == 0 ==> start == pos)
      && (state == 1 ==> InLength())
      && (state == 2 ==> ScanLength(data, start + 1).Done? && InBody(ScanLength(data, start + 1).n))
    }

    /** The header byte and `len` bytes of the length field have been read, all of which announce more. */
    ghost predicate InLength()
      reads this, buf
      requires 1 <= buf.Length
    {
      && len <= MAX_LENGTH_BYTES && pos == start + 1 + len <= |data|
      && buf[0] == data[start]
      && (forall i | start + 1 <= i < pos :: 128 <= data[i])
      && (0 < len ==> multiplier == Power128(len) && remLen == ValueOf(data[start + 1..pos]))
    }

    /** The head is in the buffer, followed by everything that has come after the n length bytes. */
    ghost predicate InBody(n: nat)
      reads this, buf
    {
      && start + 1 + n <= pos <= |data|
      && var head := Head(data, start, n);
         && len == |head| + (pos - (start + 1 + n))
         && len + remLen == |head| + ValueOf(data[start + 1..start + 1 + n]) <= buf.Length
         && buf[..len] == head + data[start + 1 + n..pos]
    }

    /** Between calls: the length field is not full, and a body still lacks something. */
    ghost predicate Ready()
      reads this, buf
    {
      Valid() && (state == 1 ==> len < MAX_LENGTH_BYTES) && (state == 2 ==> remLen > 0)
    }

    /** The transport has been asked at least once. */
    ghost predicate Spent(was: seq<int>)
      reads this`schedule
    {
      |schedule| < |was| || was == [] == schedule
    }

    lemma StartsAtZero()
      requires Ready() && state == 0
      ensures start == pos
    {
    }

    constructor (data: seq<Byte>, buf: array<Byte>, schedule: seq<int>)
      requires 5 <= buf.Length && Offers(schedule)
      ensures Ready() && this.data == data && this.buf == buf && this.schedule == schedule
      ensures pos == 0 && state == 0 && !broken
    {
      this.data, this.buf, this.schedule := data, buf, schedule;
      pos, state, len, remLen, multiplier := 0, 0, 0, 0, 0;
      start, broken := 0, false;
    }

    /** getfn for a single byte. */
    method GetByte() returns (n: int, c: Byte)
      requires pos <= |data| && Offers(schedule)
      modifies this`pos, this`schedule, this`broken
      ensures -1 <= n <= 1
      ensures n == -1 ==> pos == old(pos) && broken
      ensures n >= 0 ==> pos == old(pos) + n <= |data| && broken == old(broken)
      ensures n == 1 ==> c == data[old(pos)]
      ensures schedule == (if old(schedule) == [] then [] else old(schedule)[1..]) && Offers(schedule)
    {
      var offer := if schedule == [] then 0 else schedule[0];
      c := 0;
      if schedule != [] {
        schedule := schedule[1..];
      }
      if offer == -1 {
        broken := true;
        return -1, 0;
      }
      n := if offer < 1 || pos == |data| then 0 else 1;
      if n == 1 {
        c := data[pos];
        pos := pos + 1;
      }
    }

    /** getfn: at most `count` bytes into the buffer, 0 for "call again", -1 for an error. */
    method Get(at: nat, count: nat) returns (n: int)
      requires at + count <= buf.Length && pos <= |data| && Offers(schedule)
      modifies this`pos, this`schedule, this`broken, buf
      ensures -1 <= n <= count
      ensures n == -1 ==> pos == old(pos) && broken
      ensures n >= 0 ==> pos == old(pos) + n <= |data| && broken == old(broken)
      ensures n > 0 ==> buf[..] == old(buf[..at]) + data[old(pos)..pos] + old(buf[at + n..])
      ensures n <= 0 ==> buf[..] == old(buf[..])
      ensures schedule == (if old(schedule) == [] then [] else old(schedule)[1..]) && Offers(schedule)
    {
      var offer := if schedule == [] then 0 else schedule[0];
      if schedule != [] {
        schedule := schedule[1..];
      }
      if offer == -1 {
        broken := true;
        return -1;
      }
      n := if offer < count then offer else count;
      if |data| - pos < n {
        n := |data| - pos;
      }
      var i := 0;
      while i < n
        modifies buf
        invariant 0 <= i <= n
        invariant forall j | 0 <= j < buf.Length ::
          buf[j] == if at <= j < at + i then data[pos + j - at] else old(buf[..])[j]
      {
        buf[at + i] := data[pos + i];
        i := i + 1;
      }
      pos := pos + n;
      assert buf[..] == old(buf[..at]) + data[old(pos)..pos] + old(buf[at + n..]);
    }

    method AddDigit(c: Byte)
      requires start + 1 + len + 1 == pos <= |data| && c == data[pos - 1]
      requires multiplier == Power128(len) && remLen == ValueOf(data[start + 1..pos - 1])
      modifies this`multiplier, this`remLen, this`len
      ensures len == old(len) + 1 && multiplier == Power128(len) && remLen == ValueOf(data[start + 1..pos])
    {
      assert data[start + 1..pos] == data[start + 1..pos - 1] + [c];
      ValueOfSnoc(data[start + 1..pos - 1], c);
      len := len + 1;
      remLen := remLen + c % 128 * multiplier;
      multiplier := multiplier * 128;
    }

    /** MQTTPacket_decodenb: the byte read lands in a local, so the buffer is not touched. */
    method DecodeNb() returns (rc: int)
      requires Ready() && state == 1
      modifies this`pos, this`schedule, this`multiplier, this`remLen, this`len, this`broken
      ensures Spent(old(schedule))
      ensures start <= pos <= |data| && Offers(schedule) && READ_ERROR <= rc
      ensures rc == READ_ERROR ==> broken || ScanLength(data, start + 1) == Bad
      ensures rc == 0 ==> Valid() && len < MAX_LENGTH_BYTES && broken == old(broken)
      ensures rc > 0 ==>
                && ScanLength(data, start + 1) == Done(len) && pos == start + 1 + len && rc == len
                && remLen == ValueOf(data[start + 1..pos]) && broken == old(broken)
    {
      hide InBody, Power128, ValueOf, ScanLength;
      ValueOfNothing();
      if len == 0 {
        multiplier := 1;
        remLen := 0;
        assert data[start + 1..pos] == [];
      }
      while true
        invariant Valid() && state == 1 && broken == old(broken)
        invariant Spent(old(schedule)) || (len < MAX_LENGTH_BYTES && schedule == old(schedule))
        invariant multiplier == Power128(len) && remLen == ValueOf(data[start + 1..pos])
        decreases MAX_LENGTH_BYTES - len
      {
        if len >= MAX_LENGTH_BYTES {
          ScanIsBad(data, start + 1, 0);
          return READ_ERROR;
        }
        var frc, c := GetByte();
        if frc == -1 { return READ_ERROR; }
        if frc == 0 { return 0; }
        AddDigit(c);
        if c < 128 { break; }
      }
      ScanStops(data, start + 1, len, 0);
      rc := len;
    }

    lemma DeliveredPacket(from: nat, kind: int)
      requires Delivered(from, kind)
      ensures Parse(data, from, buf.Length) == Packet(kind, buf[..len], pos - from) && from < pos
    {
    }

    /** Of what has been taken from `start` on, no packet can be made yet. */
    ghost predicate Waiting()
      reads this, buf
    {
      start <= pos <= |data| && Parse(data[..pos], start, buf.Length) == Incomplete
    }

    lemma NothingTaken()
      requires Ready() && state == 0
      ensures start == pos && Waiting()
    {
    }

    lemma Between()
      requires Ready()
      ensures start <= pos <= |data| && (Parse(data[..pos], start, buf.Length) == Incomplete <==> Waiting())
    {
    }

    /** The bytes of the stream from `from` on are a packet of this type, now in the buffer. */
    ghost predicate Delivered(from: nat, kind: int)
      reads this, buf
    {
      && from < pos && len <= buf.Length && 0 <= kind
      && Parse(data, from, buf.Length) == Packet(kind, buf[..len], pos - from)
    }

    lemma BodyComplete(n: nat)
      requires Valid() && ScanLength(data, start + 1) == Done(n) && InBody(n) && remLen == 0
      ensures Delivered(start, buf[0] / 16)
    {
      assert buf[0] == buf[..len][0];
    }

    lemma BodyIncomplete(n: nat)
      requires Valid() && ScanLength(data, start + 1) == Done(n) && InBody(n) && remLen > 0
      ensures Parse(data[..pos], start, buf.Length) == Incomplete
    {
      hide ScanLength, ValueOf;
      ScanPrefix(data, pos, start + 1, 0);
      assert data[..pos][start + 1..start + 1 + n] == data[start + 1..start + 1 + n];
    }

    lemma LengthIncomplete()
      requires Valid() && state == 1 && len < MAX_LENGTH_BYTES
      ensures Parse(data[..pos], start, buf.Length) == Incomplete
    {
      ScanIsMore(data[..pos], start + 1, 0);
    }

    /** Case 0 of MQTTPacket_readnb: the header byte. */
    method ReadHeader() returns (frc: int)
      requires Valid() && state == 0
      modifies this`pos, this`schedule, this`len, this`state, this`broken, buf
      ensures Valid() && -1 <= frc <= 1
      ensures Spent(old(schedule))
      ensures frc == -1 ==> broken && state == 0
      ensures frc == 0 ==> state == 0 && pos == start && broken == old(broken)
      ensures frc == 1 ==> state == 1 && len == 0 && broken == old(broken)
      ensures state == 0 ==> buf[..] == old(buf[..])
    {
      frc := Get(0, 1);
      if frc != 1 { return; }
      len := 0;
      state := state + 1;
    }

    /** Case 1: the length field, then the head put back in front of the body. */
    method ReadLength() returns (frc: int)
      requires Ready() && state == 1
      modifies this`pos, this`schedule, this`multiplier, this`remLen, this`len, this`state, this`broken, this`start, buf
      ensures Valid() && -1 <= frc
      ensures Spent(old(schedule))
      ensures frc == READ_ERROR ==> state == 0 && (broken || Parse(data, old(start), buf.Length) == Failed)
      ensures frc == 0 ==> state == 1 && start == old(start) && len < MAX_LENGTH_BYTES && broken == old(broken)
      ensures frc > 0 ==> state == 2 && start == old(start) && broken == old(broken)
    {
      hide Parse, ScanLength, EncodeLength, ValueOf;
      frc := DecodeNb();
      if frc == READ_ERROR {
        BadLength(data, start, buf.Length);
        state := 0;
        start := pos;
        return;
      }
      if frc == 0 { return; }
      ghost var n := len;
      ghost var first := buf[0];
      ReencodedIsShort(data[start + 1..pos]);
      var size := Encode(buf, 1, remLen);
      len := 1 + size;
      assert buf[..len] == [first] + EncodeLength(remLen);
      assert buf[..len] == Head(data, start, n) + data[pos..pos];
      if remLen + len > buf.Length {
        TooLarge(data, start, n, buf.Length);
        state := 0;
        start := pos;
        return READ_ERROR;
      }
      state := state + 1;
    }

    /** One more piece of the body. */
    method Fill(ghost n: nat) returns (frc: int)
      requires 5 <= buf.Length && start <= pos <= |data| && Offers(schedule) && InBody(n)
      modifies this`pos, this`schedule, this`remLen, this`len, this`broken, buf
      ensures start <= pos <= |data| && Offers(schedule) && InBody(n)
      ensures Spent(old(schedule))
      ensures frc == -1 ==> broken
      ensures -1 <= frc && (frc >= 0 ==> broken == old(broken))
      ensures frc <= 0 ==> remLen == old(remLen)
    {
      hide Head, ValueOf;
      frc := Get(len, remLen);
      if frc > 0 {
        ghost var wasLen, wasPos := len, pos - frc;
        remLen := remLen - frc;
        len := len + frc;
        assert buf[..len] == old(buf[..len]) + data[wasPos..pos];
        assert data[start + 1 + n..pos] == data[start + 1 + n..wasPos] + data[wasPos..pos];
      }
    }

    /** Case 2: what is left of the body. */
    method ReadBody() returns (rc: int)
      requires Valid() && state == 2
      modifies this`pos, this`schedule, this`remLen, this`len, this`state, this`broken, this`start, buf
      ensures Valid()
      ensures Spent(old(schedule)) || (old(remLen) == 0 && schedule == old(schedule))
      ensures rc == READ_ERROR ==> state == 0 && broken
      ensures rc == 0 && state != 0 ==> state == 2 && remLen > 0 && start == old(start) && broken == old(broken)
      ensures rc >= 0 && state == 0 ==>
                old(start) < pos && len <= buf.Length && Delivered(old(start), rc) && broken == old(broken)
      ensures READ_ERROR <= rc && (rc > 0 ==> state == 0)
    {
      hide ScanLength, Parse, InLength;
      ghost var n := ScanLength(data, start + 1).n;
      if remLen != 0 {
        var frc := Fill(n);
        if frc == -1 {
          state := 0;
          start := pos;
          return READ_ERROR;
        }
        if frc == 0 { return 0; }
        if remLen != 0 { return 0; }
      }
      BodyComplete(n);
      rc := buf[0] / 16;
      state := 0;
      start := pos;
    }

    /** MQTTPacket_readnb.  Called again and again, it delivers exactly the packet that Parse finds
        in the stream, whatever the transport does in between: -1 only for a transport error or a
        stream no reader could accept, 0 while the packet is incomplete (or has type 0), and the
        packet type once the buffer holds all of it. */
    method ReadNb() returns (rc: int)
      requires Ready()
      modifies this, buf
      ensures Ready() && -1 <= rc
      ensures state == 0 ==> start == pos
      ensures Spent(old(schedule))
      ensures rc == -1 ==> state == 0 && (broken || Parse(data, old(start), buf.Length) == Failed)
      ensures rc == 0 && state != 0 ==> start == old(start) && Parse(data[..pos], start, buf.Length) == Incomplete
      ensures rc == 0 && state == 0 && pos == old(start) ==> old(state) == 0 && buf[..] == old(buf[..])
      ensures rc >= 0 && state == 0 && pos != old(start) ==> len <= buf.Length && Delivered(old(start), rc)
      ensures rc > 0 ==> state == 0 && pos != old(start)
      ensures rc >= 0 ==> broken == old(broken)
    {
      hide Parse, ScanLength, InBody, InLength, Delivered;
      if state != 1 && state != 2 {
        state := 0;
        var frc := ReadHeader();
        if frc == -1 {
          return READ_ERROR;
        }
        if frc == 0 { return 0; }
      }
      if state == 1 {
        var frc := ReadLength();
        if frc == READ_ERROR { return READ_ERROR; }
        if frc == 0 {
          LengthIncomplete();
          return 0;
        }
      }
      rc := ReadBody();
      if rc == 0 && state != 0 {
        BodyIncomplete(ScanLength(data, start + 1).n);
      }
    }
  }

  // ---------------------------------------------------------------------------------------------
  // Streams of packets

  datatype Delivery = Delivery(kind: nat, bytes: seq<Byte>)

  /** The packets a stream splits into, as far as it can be split. */
  function Split(data: seq<Byte>, at: nat, buflen: nat): seq<Delivery>
    decreases |data| - at
  {
    match Parse(data, at, buflen)
    case Packet(kind, bytes, used) =>
      [Delivery(kind, bytes)] + Split(data, at + used, buflen)
    case _ => []
  }

  lemma SplitStep(data: seq<Byte>, at: nat, buflen: nat)
    ensures match Parse(data, at, buflen)
      case Packet(kind, bytes, used) =>
        Split(data, at, buflen) == [Delivery(kind, bytes)] + Split(data, at + used, buflen)
      case _ => Split(data, at, buflen) == []
  {
  }

  /** The packets the blocking reader takes off the same stream, one call after another, until a
      call fails. */
  function SplitBlocking(data: seq<Byte>, at: nat, buflen: nat): seq<Delivery>
    decreases |data| - at
  {
    match BlockingRead(data, at, buflen)
    case Packet(kind, bytes, used) =>
      [Delivery(kind, bytes)] + SplitBlocking(data, at + used, buflen)
    case _ => []
  }

  /** Where splitting the stream comes to its end. */
  function SplitEnd(data: seq<Byte>, at: nat, buflen: nat): (end: nat)
    ensures at <= end && !Parse(data, end, buflen).Packet?
    decreases |data| - at
  {
    var r := Parse(data, at, buflen);
    if r.Packet? then SplitEnd(data, at + r.used, buflen) else at
  }

  /** The blocking reader delivers everything that the other one does, and the two split the stream
      alike if and only if the rest that holds no complete packet is not misread. */
  lemma {:induction false} SplitIdentically(data: seq<Byte>, at: nat, buflen: nat)
    ensures var end := SplitEnd(data, at, buflen);
            SplitBlocking(data, at, buflen) == Split(data, at, buflen) + SplitBlocking(data, end, buflen)
    ensures Split(data, at, buflen) == SplitBlocking(data, at, buflen) <==>
              !Misread(data, SplitEnd(data, at, buflen), buflen)
    decreases |data| - at
  {
    hide Parse, BlockingRead, Misread;
    ReadersAgree(data, at, buflen);
    var r := Parse(data, at, buflen);
    if r.Packet? {
      SplitIdentically(data, at + r.used, buflen);
      var end := SplitEnd(data, at, buflen);
      var first := [Delivery(r.kind, r.bytes)];
      assert first + (Split(data, at + r.used, buflen) + SplitBlocking(data, end, buflen)) ==
             first + Split(data, at + r.used, buflen) + SplitBlocking(data, end, buflen);
      SameTail(first, Split(data, at + r.used, buflen), SplitBlocking(data, at + r.used, buflen));
    }
  }

  lemma SameTail(first: seq<Delivery>, a: seq<Delivery>, b: seq<Delivery>)
    ensures first + a == first + b <==> a == b
  {
    assert (first + a)[|first|..] == a && (first + b)[|first|..] == b;
  }

  /** These packets lie in the stream one after another, from `at` up to `to`. */
  ghost predicate Follow(data: seq<Byte>, at: nat, buflen: nat, packets: seq<Delivery>, to: nat)
    decreases |packets|
  {
    if |packets| == 0 then at == to
    else
      var r := Parse(data, at, buflen);
      r.Packet? && packets[0] == Delivery(r.kind, r.bytes) && at + r.used <= to &&
      Follow(data, at + r.used, buflen, packets[1..], to)
  }

  lemma FollowNothing(data: seq<Byte>, at: nat, buflen: nat)
    ensures Follow(data, at, buflen, [], at)
  {
  }

  lemma {:induction false} FollowSnoc(data: seq<Byte>, at: nat, buflen: nat, packets: seq<Delivery>, to: nat)
    requires Follow(data, at, buflen, packets, to) && Parse(data, to, buflen).Packet?
    ensures var r := Parse(data, to, buflen);
            Follow(data, at, buflen, packets + [Delivery(r.kind, r.bytes)], to + r.used)
    decreases |packets|
  {
    var last := Parse(data, to, buflen);
    var more := packets + [Delivery(last.kind, last.bytes)];
    hide Parse;
    if |packets| == 0 {
      assert more[1..] == [];
    } else {
      var r := Parse(data, at, buflen);
      FollowSnoc(data, at + r.used, buflen, packets[1..], to);
      assert more[1..] == packets[1..] + [Delivery(last.kind, last.bytes)];
    }
  }

  lemma {:induction false} FollowSplit(data: seq<Byte>, at: nat, buflen: nat, packets: seq<Delivery>, to: nat)
    requires Follow(data, at, buflen, packets, to)
    ensures Split(data, at, buflen) == packets + Split(data, to, buflen)
    decreases |packets|
  {
    hide Parse;
    if |packets| == 0 {
      assert packets + Split(data, to, buflen) == Split(data, to, buflen);
    } else {
      var r := Parse(data, at, buflen);
      FollowSplit(data, at + r.used, buflen, packets[1..], to);
      assert packets == [packets[0]] + packets[1..];
      assert [packets[0]] + (packets[1..] + Split(data, to, buflen)) ==
             [packets[0]] + packets[1..] + Split(data, to, buflen);
    }
  }

  /** Packets that have arrived in full are found in what has arrived. */
  lemma {:induction false} FollowPrefix(data: seq<Byte>, at: nat, buflen: nat, packets: seq<Delivery>, to: nat, p: nat)
    requires Follow(data, at, buflen, packets, to) && to <= p <= |data|
    ensures Follow(data[..p], at, buflen, packets, to)
    decreases |packets|
  {
    if |packets| > 0 {
      ParsePrefix(data, at, buflen, p);
      hide Parse;
      FollowPrefix(data, at + Parse(data, at, buflen).used, buflen, packets[1..], to, p);
    }
  }

  lemma ParsePrefix(data: seq<Byte>, at: nat, buflen: nat, p: nat)
    requires p <= |data| && Parse(data, at, buflen).Packet? && at + Parse(data, at, buflen).used <= p
    ensures Parse(data[..p], at, buflen) == Parse(data, at, buflen)
  {
    ScanPrefix(data, p, at + 1, 0);
    var n := ScanLength(data, at + 1).n;
    hide ScanLength, ValueOf;
    assert data[..p][at + 1..at + 1 + n] == data[at + 1..at + 1 + n];
    var size := ValueOf(data[at + 1..at + 1 + n]);
    assert data[..p][at + 1 + n..at + 1 + n + size] == data[at + 1 + n..at + 1 + n + size];
  }

  /** The deliveries a caller can see: a packet of type 0 is returned as "call again". */
  function Typed(packets: seq<Delivery>): seq<Delivery> {
    if |packets| == 0 then []
    else (if packets[0].kind > 0 then [packets[0]] else []) + Typed(packets[1..])
  }

  lemma TypedNothing()
    ensures Typed([]) == []
  {
  }

  lemma {:induction false} TypedSnoc(packets: seq<Delivery>, p: Delivery)
    ensures Typed(packets + [p]) == Typed(packets) + if p.kind > 0 then [p] else []
  {
    if |packets| == 0 {
      assert packets + [p] == [p];
    } else {
      TypedSnoc(packets[1..], p);
      assert (packets + [p])[1..] == packets[1..] + [p];
    }
  }

  /** Polls the reader until the transport has nothing more to offer or a read fails, and collects
      what arrives.  Whatever the chunking, those are the first packets that the stream splits into:
      all of them if the reading stopped for the stream's own fault, and otherwise all that can be
      split off what has been taken. */
  method Poll(t: Transport) returns (packets: seq<Delivery>, rc: int, ghost all: seq<Delivery>)
    requires t.Ready() && t.state == 0 && t.pos == 0
    modifies t, t.buf
    ensures packets == Typed(all) && all <= Split(t.data, 0, t.buf.Length)
    ensures rc == -1 || t.schedule == []
    ensures rc == -1 && !t.broken ==> all == Split(t.data, 0, t.buf.Length)
    ensures rc != -1 ==> t.pos <= |t.data| && all == Split(t.data[..t.pos], 0, t.buf.Length)
    ensures rc != -1 && t.state == 0 ==>
              Split(t.data, 0, t.buf.Length) == all + Split(t.data, t.pos, t.buf.Length)
  {
    hide Typed, Split, Parse, Follow, Transport.Ready, Transport.Delivered;
    packets, rc, all := [], 0, [];
    assert Typed(all) == [] by { TypedNothing(); }
    t.StartsAtZero();
    FollowNothing(t.data, 0, t.buf.Length);
    t.NothingTaken();
    ghost var to := 0;
    while t.schedule != [] && rc != READ_ERROR
      invariant t.Ready() && READ_ERROR <= rc && packets == Typed(all)
      invariant Follow(t.data, 0, t.buf.Length, all, to)
      invariant rc != READ_ERROR ==> to == t.start && t.Waiting()
      invariant rc == READ_ERROR && !t.broken ==> Parse(t.data, to, t.buf.Length) == Failed
      decreases |t.schedule|
    {
      rc := t.ReadNb();
      if rc > 0 {
        packets := packets + [Delivery(rc, t.buf[..t.len])];
      }
      if rc >= 0 {
        if t.state == 0 {
          if t.start != to {
            TypedSnoc(all, Delivery(rc, t.buf[..t.len]));
            t.DeliveredPacket(to, rc);
            FollowSnoc(t.data, 0, t.buf.Length, all, to);
            all, to := all + [Delivery(rc, t.buf[..t.len])], t.start;
          }
          t.NothingTaken();
        } else {
          t.Between();
        }
      }
    }
    FollowSplit(t.data, 0, t.buf.Length, all, to);
    SplitStep(t.data, to, t.buf.Length);
    if rc != READ_ERROR {
      t.Between();
      FollowPrefix(t.data, 0, t.buf.Length, all, to, t.pos);
      FollowSplit(t.data[..t.pos], 0, t.buf.Length, all, to);
      SplitStep(t.data[..t.pos], to, t.buf.Length);
    }
    if t.state == 0 { t.StartsAtZero(); }
  }

  // ---------------------------------------------------------------------------------------------
  // The blocking reader

  class Stream {
    const data: seq<Byte>
    const buf: array<Byte>
    var pos: nat

    constructor (data: seq<Byte>, buf: array<Byte>)
      ensures pos == 0 && this.data == data && this.buf == buf
    {
      this.data, this.buf, pos := data, buf, 0;
    }

    /** getfn: waits for `count` bytes and delivers fewer only at the end of the stream. */
    method Get(at: nat, count: nat) returns (n: nat)
      requires pos <= |data| && at + count <= buf.Length
      modifies this`pos, buf
      ensures n == if count <= |data| - old(pos) then count else |data| - old(pos)
      ensures pos == old(pos) + n
      ensures buf[..] == old(buf[..at]) + data[old(pos)..pos] + old(buf[at + n..])
    {
      n := if count <= |data| - pos then count else |data| - pos;
      var i := 0;
      while i < n
        modifies buf
        invariant 0 <= i <= n
        invariant forall j | 0 <= j < buf.Length ::
          buf[j] == if at <= j < at + i then data[pos + j - at] else old(buf[..])[j]
      {
        buf[at + i] := data[pos + i];
        i := i + 1;
      }
      pos := pos + n;
      assert buf[..] == old(buf[..at]) + data[old(pos)..pos] + old(buf[at + n..]);
    }

    /** MQTTPacket_decode reading through getfn: it reports how many bytes it tried to read, which
        the caller ignores. */
    method Decode() returns (tried: nat, value: nat)
      requires pos <= |data|
      modifies this`pos
      ensures pos == old(pos) + DecodedBytes(data, old(pos)) && value == ValueOf(data[old(pos)..pos])
    {
      hide ValueOf, Power128;
      ValueOfNothing();
      value, tried := 0, 0;
      var multiplier: nat := 1;
      ghost var from := pos;
      assert data[from..pos] == [];
      while true
        invariant from + tried == pos <= |data| && tried <= MAX_LENGTH_BYTES
        invariant multiplier == Power128(tried) && value == ValueOf(data[from..pos])
        invariant DecodedBytes(data, from, tried) == DecodedBytes(data, from)
        decreases MAX_LENGTH_BYTES - tried
      {
        tried := tried + 1;
        if tried > MAX_LENGTH_BYTES { break; }
        if pos == |data| { break; }
        var c := data[pos];
        pos := pos + 1;
        assert data[from..pos] == data[from..pos - 1] + [c];
        ValueOfSnoc(data[from..pos - 1], c);
        value := value + c % 128 * multiplier;
        multiplier := multiplier * 128;
        if c < 128 { break; }
      }
    }

    /** MQTTPacket_read. */
    method Read() returns (rc: int)
      requires pos <= |data| && 5 <= buf.Length
      modifies this`pos, buf
      ensures match BlockingRead(data, old(pos), buf.Length)
        case Packet(kind, bytes, used) =>
          rc == kind && pos == old(pos) + used && |bytes| <= buf.Length && buf[..|bytes|] == bytes
        case _ => rc == -1
    {
      hide ValueOf, EncodeLength, DecodedBytes;
      var got := Get(0, 1);
      if got != 1 { return -1; }
      ghost var from := pos - 1;
      var _, remLen := Decode();
      ghost var n := pos - from - 1;
      EncodedFits(data[from + 1..pos]);
      var size := Encode(buf, 1, remLen);
      var len := 1 + size;
      ghost var head := buf[..len];
      assert head == Head(data, from, n);
      if remLen + len > buf.Length { return -1; }
      if remLen != 0 {
        got := Get(len, remLen);
        if got != remLen { return -1; }
      }
      assert buf[..len + remLen] == head + data[from + 1 + n..pos];
      assert buf[0] == head[0];
      rc := buf[0] / 16;
    }
  }

  lemma EncodedFits(s: seq<Byte>)
    requires |s| <= MAX_LENGTH_BYTES
    ensures |EncodeLength(ValueOf(s))| <= MAX_LENGTH_BYTES
  {
    if |s| > 0 { ReencodedIsShort(s); }
  }
}
