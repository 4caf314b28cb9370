/** The variable-length "remaining length" field of MQTT 3.1.1, section 2.2.3
    (MQTT/MQTTPacket.c:29-98). */
module MqttLength {
  import opened Bytes

  const MAX_LENGTH_BYTES: nat := 4
  const LENGTH_LIMIT: nat := 268435456  // 128 to the power MAX_LENGTH_BYTES

  function EncodeLength(n: nat): (s: seq<Byte>)
    ensures 1 <= |s|
  {
    if n < 128 then [n] else [n % 128 + 128] + EncodeLength(n / 128)
  }

  function Power128(k: nat): (p: nat)
    ensures 1 <= p
  {
    if k == 0 then 1 else 128 * Power128(k - 1)
  }

  /** The value of the length bytes `s`, least significant first, top bits ignored. */
  function ValueOf(s: seq<Byte>): nat {
    if |s| == 0 then 0 else ValueOf(s[..|s| - 1]) + (s[|s| - 1] % 128) * Power128(|s| - 1)
  }

  /** How a length field at position `at` reads: cut short, longer than allowed, or n bytes. */
  datatype Scan = More | Bad | Done(n: nat)

  function ScanLength(s: seq<Byte>, at: nat, k: nat := 0): (r: Scan)
    requires k <= MAX_LENGTH_BYTES
    ensures r.Done? ==> k < r.n <= MAX_LENGTH_BYTES && at + r.n <= |s|
    ensures r.Bad? && k < MAX_LENGTH_BYTES ==> at + MAX_LENGTH_BYTES <= |s|
    decreases MAX_LENGTH_BYTES - k
  {
    if k == MAX_LENGTH_BYTES then Bad
    else if |s| <= at + k then More
    else if s[at + k] < 128 then Done(k + 1)
    else ScanLength(s, at, k + 1)
  }

  /** Number of bytes EncodeLength needs. */
  lemma {:induction false} EncodedSize(n: nat)
    ensures |EncodeLength(n)| == if n < 128 then 1 else if n < 16384 then 2 else if n < 2097152 then 3
                                 else if n < LENGTH_LIMIT then 4 else |EncodeLength(n)|
  {
    if 128 <= n { EncodedSize(n / 128); }
  }

  lemma {:induction false} EncodedBytes(n: nat)
    ensures var s := EncodeLength(n);
            && (forall i | 0 <= i < |s| - 1 :: 128 <= s[i])
            && s[|s| - 1] < 128
  {
    if 128 <= n { EncodedBytes(n / 128); }
  }

  lemma ValueOfSnoc(s: seq<Byte>, b: Byte)
    ensures ValueOf(s + [b]) == ValueOf(s) + b % 128 * Power128(|s|)
    ensures Power128(|s| + 1) == Power128(|s|) * 128
  {
    assert (s + [b])[..|s|] == s;
  }

  lemma ValueOfNothing()
    ensures ValueOf([]) == 0 && Power128(0) == 1
  {
  }

  lemma {:induction false} ValueOfCons(b: Byte, s: seq<Byte>)
    ensures ValueOf([b] + s) == b % 128 + 128 * ValueOf(s)
  {
    var t := [b] + s;
    if |s| == 0 {
      assert ValueOf(t) == ValueOf(t[..0]) + b % 128 * Power128(0);
    } else {
      ValueOfCons(b, s[..|s| - 1]);
      assert t[..|t| - 1] == [b] + s[..|s| - 1];
      var d := s[|s| - 1] % 128;
      var p := Power128(|s| - 1);
      assert Power128(|s|) == 128 * p;
      assert d * (128 * p) == 128 * (d * p);
    }
  }

  lemma {:induction false} ValueOfEncoded(n: nat)
    ensures ValueOf(EncodeLength(n)) == n
  {
    if n < 128 {
      ValueOfCons(n, []);
      assert [n] + [] == [n];
    } else {
      ValueOfEncoded(n / 128);
      ValueOfCons(n % 128 + 128, EncodeLength(n / 128));
    }
  }

  lemma {:induction false} ScanStops(s: seq<Byte>, at: nat, n: nat, k: nat)
    requires k < n <= MAX_LENGTH_BYTES && at + n <= |s|
    requires forall i | at + k <= i < at + n - 1 :: 128 <= s[i]
    requires s[at + n - 1] < 128
    ensures ScanLength(s, at, k) == Done(n)
    decreases n - k
  {
    if k < n - 1 { ScanStops(s, at, n, k + 1); }
  }

  /** Reading an encoded length back gives the length and uses exactly its bytes. */
  lemma LengthRoundTrip(n: nat, s: seq<Byte>, at: nat)
    requires n < LENGTH_LIMIT
    requires at + |EncodeLength(n)| <= |s| && s[at..at + |EncodeLength(n)|] == EncodeLength(n)
    ensures ScanLength(s, at) == Done(|EncodeLength(n)|)
    ensures ValueOf(s[at..at + |EncodeLength(n)|]) == n
  {
    var e := EncodeLength(n);
    EncodedSize(n);
    EncodedBytes(n);
    ValueOfEncoded(n);
    forall i | at <= i < at + |e| ensures s[i] == e[i - at] {
      assert s[i] == s[at..at + |e|][i - at];
    }
    ScanStops(s, at, |e|, 0);
  }

  lemma {:induction false} ValueOfBound(s: seq<Byte>)
    ensures ValueOf(s) < Power128(|s|)
  {
    if |s| > 0 {
      ValueOfBound(s[..|s| - 1]);
      AtMost127Times(s[|s| - 1] % 128, Power128(|s| - 1));
      assert Power128(|s|) == 128 * Power128(|s| - 1);
    }
  }

  lemma AtMost127Times(d: nat, p: nat)
    requires d <= 127
    ensures d * p <= 127 * p
  {
  }

  lemma LimitIsPower()
    ensures Power128(MAX_LENGTH_BYTES) == LENGTH_LIMIT
  {
    assert Power128(1) == 128 && Power128(2) == 16384 && Power128(3) == 2097152;
  }

  /** A field of at most four bytes never needs more room re-encoded than it took on the wire. */
  lemma ReencodedIsShort(s: seq<Byte>)
    requires 1 <= |s| <= MAX_LENGTH_BYTES
    ensures ValueOf(s) < LENGTH_LIMIT
    ensures |EncodeLength(ValueOf(s))| <= |s|
  {
    ValueOfBound(s);
    EncodedSize(ValueOf(s));
    LimitIsPower();
    assert Power128(1) == 128 && Power128(2) == 16384 && Power128(3) == 2097152;
  }

  // ---------------------------------------------------------------------------------------------
  // Packet size

  /** MQTTPacket_len: the buffer size it asks for. */
  function PacketLen(remaining: nat): nat {
    var n := remaining + 1;
    n + if n < 128 then 1 else if n < 16384 then 2 else if n < 2097151 then 3 else 4
  }

  /** The size a packet really takes: header byte, length field, rest. */
  function ExactLen(remaining: nat): nat {
    1 + |EncodeLength(remaining)| + remaining
  }

  /** MQTTPacket_len never asks for too little, and asks for exactly one byte too many at the four
      lengths where its thresholds, which count the header byte, miss. */
  lemma PacketLenIsEnough(remaining: nat)
    requires remaining < LENGTH_LIMIT
    ensures PacketLen(remaining) ==
            ExactLen(remaining) + if remaining in {127, 16383, 2097150, 2097151} then 1 else 0
  {
    EncodedSize(remaining);
  }

  // ---------------------------------------------------------------------------------------------
  // The code

  /** MQTTPacket_encode, writing at position `at`. */
  method Encode(buf: array<Byte>, at: nat, length: nat) returns (rc: nat)
    requires at + |EncodeLength(length)| <= buf.Length
    modifies buf
    ensures rc == |EncodeLength(length)|
    ensures Wrote(old(buf[..]), buf[..], at, EncodeLength(length))
  {
    hide EncodeLength;
    ghost var whole := EncodeLength(length);
    ghost var before := buf[..];
    rc := 0;
    var rest := length;
    while true
      invariant rc < |whole| && EncodeLength(rest) == whole[rc..]
      invariant forall i | 0 <= i < buf.Length :: buf[i] == if at <= i < at + rc then whole[i - at] else before[i]
      decreases |whole| - rc
    {
      EncodeStep(rest);
      assert whole[rc..][0] == whole[rc] && whole[rc..][1..] == whole[rc + 1..];
      var d := rest % 128;
      rest := rest / 128;
      if rest > 0 {
        d := d + 0x80;
      }
      buf[at + rc] := d;
      rc := rc + 1;
      if rest == 0 { break; }
    }
  }

  lemma EncodeStep(n: nat)
    ensures var e := EncodeLength(n); var d := n % 128;
            if n / 128 == 0 then e == [d] else |e| > 1 && e[0] == d + 128 && e[1..] == EncodeLength(n / 128)
  {
  }
}
