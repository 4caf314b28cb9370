/** The snapshot recorder's symbol table (TraceRecorder/trcSnapshotRecorder.c:2362-2371, 2417-2440,
    2706-2846): names packed into bytes and chained by a six bit checksum. */
module SymbolTable {
  import opened Bytes

  type Name = t: seq<Byte> | |t| < 255 && forall b <- t :: b != 0 witness []

  /** A name, the channel it belongs to, and where its bytes start. */
  datatype Entry = Entry(at: nat, name: Name, channel: nat)

  // The link, the channel, the name, its NUL, and one more NUL.
  function EntrySize(name: Name): nat { |name| + 6 }

  function Sum(t: seq<Byte>): nat {
    if |t| == 0 then 0 else Sum(t[..|t| - 1]) + t[|t| - 1]
  }

  function Checksum(name: Name): (c: nat)
    ensures c < 64
  {
    Sum(name) % 64
  }

  /** The last entry with a checksum, or 0: what latestEntryOfChecksum and the links hold. */
  function Latest(entries: seq<Entry>, c: nat): nat {
    if |entries| == 0 then 0
    else if Checksum(entries[|entries| - 1].name) == c then entries[|entries| - 1].at
    else Latest(entries[..|entries| - 1], c)
  }

  /** Where a pair is, or 0. */
  function Find(entries: seq<Entry>, name: Name, channel: nat): nat {
    if |entries| == 0 then 0
    else if entries[|entries| - 1].name == name && entries[|entries| - 1].channel == channel
    then entries[|entries| - 1].at
    else Find(entries[..|entries| - 1], name, channel)
  }

  function End(entries: seq<Entry>): nat {
    if |entries| == 0 then 1
    else entries[|entries| - 1].at + EntrySize(entries[|entries| - 1].name)
  }

  /** The entries follow each other from byte 1 on, and no pair is there twice. */
  ghost predicate Packed(entries: seq<Entry>, size: nat) {
    && (forall i :: 0 <= i < |entries| ==> entries[i].at == End(entries[..i]) && entries[i].channel < 0x10000)
    && (forall i, j :: 0 <= i < j < |entries| ==>
          entries[i].name != entries[j].name || entries[i].channel != entries[j].channel)
    && End(entries) <= size
  }

  /** What a call of prvTraceOpenSymbol does to the table. */
  function Opened(entries: seq<Entry>, name: Name, channel: nat, size: nat): seq<Entry> {
    if Find(entries, name, channel) != 0 || End(entries) + |name| + 5 >= size then entries
    else entries + [Entry(End(entries), name, channel)]
  }

  /** The handle it returns. For a new entry the code takes the entry's size as a `uint8_t` when it
      goes back from the next free byte to the entry, so that sizes above 255 lose 256. */
  function Handle(entries: seq<Entry>, name: Name, channel: nat, size: nat): nat {
    if Find(entries, name, channel) != 0 then Find(entries, name, channel)
    else if End(entries) + |name| + 5 >= size then 0
    else (End(entries) + EntrySize(name) - EntrySize(name) % 256) % 0x10000
  }

  // ---------------------------------------------------------------------------------------------
  // An injective and persistent map, as long as names are not too long

  lemma {:induction false} FindMeaning(entries: seq<Entry>, name: Name, channel: nat, size: nat)
    requires Packed(entries, size)
    ensures var at := Find(entries, name, channel);
            && (at != 0 ==> Entry(at, name, channel) in entries)
            && (at == 0 ==> forall e <- entries :: e.name != name || e.channel != channel)
            && (at != 0 ==> at < End(entries)) && 0 < End(entries)
    decreases |entries|
  {
    hide Packed, Checksum;
    if |entries| > 0 {
      var last := |entries| - 1;
      PackedPrefix(entries, size, last);
      PackedPositive(entries, size, last);
      FindMeaning(entries[..last], name, channel, size);
      assert entries == entries[..last] + [entries[last]];
    }
  }

  lemma PackedPrefix(entries: seq<Entry>, size: nat, n: nat)
    requires Packed(entries, size) && n <= |entries|
    ensures Packed(entries[..n], size) && 0 < End(entries[..n]) <= End(entries)
    decreases |entries| - n
  {
    if n < |entries| {
      PackedPrefix(entries, size, n + 1);
      assert entries[..n + 1][..n] == entries[..n];
      forall i | 0 <= i < n ensures entries[..n][..i] == entries[..i] {
      }
      if n > 0 { assert entries[n - 1].at == End(entries[..n - 1]); PackedPositive(entries, size, n - 1); }
    } else {
      assert entries[..n] == entries;
      if n > 0 { PackedPositive(entries, size, n - 1); }
    }
  }

  lemma {:induction false} PackedPositive(entries: seq<Entry>, size: nat, i: nat)
    requires Packed(entries, size) && i < |entries|
    ensures entries[i].at > 0
    decreases i
  {
    assert entries[i].at == End(entries[..i]);
    if i > 0 { PackedPositive(entries, size, i - 1); }
  }

  /** Opening keeps the table in order, adds at most one entry and changes none. */
  lemma OpenedStaysPacked(entries: seq<Entry>, name: Name, channel: nat, size: nat)
    requires Packed(entries, size) && channel < 0x10000
    ensures Packed(Opened(entries, name, channel, size), size)
    ensures entries <= Opened(entries, name, channel, size)
  {
    var t := Opened(entries, name, channel, size);
    FindMeaning(entries, name, channel, size);
    if t != entries {
      forall i | 0 <= i < |t| ensures t[i].at == End(t[..i]) {
        assert t[..i] == if i < |entries| then entries[..i] else entries;
      }
    }
  }

  /** A pair that is not there yet is put into the table exactly if its entry, six bytes longer than its name,
      ends within it; and only then the call returns 0 for it. */
  lemma CreatedIfRoom(entries: seq<Entry>, name: Name, channel: nat, size: nat)
    requires Packed(entries, size) && Find(entries, name, channel) == 0 && size < 0x10000
    ensures var room := End(entries) + |name| + 6 <= size;
            && Opened(entries, name, channel, size) ==
               (if room then entries + [Entry(End(entries), name, channel)] else entries)
            && (Handle(entries, name, channel, size) != 0 <==> room)
            && (room ==> End(Opened(entries, name, channel, size)) == End(entries) + |name| + 6)
  {
    FindMeaning(entries, name, channel, size);
    EndSnoc(entries, Entry(End(entries), name, channel));
    HandleIfRoom(entries, name, channel, size);
    hide Packed, Find, End, Handle;
  }

  lemma HandleIfRoom(entries: seq<Entry>, name: Name, channel: nat, size: nat)
    requires Find(entries, name, channel) == 0 && 0 < End(entries) && size < 0x10000
    ensures Handle(entries, name, channel, size) != 0 <==> End(entries) + |name| + 6 <= size
  {
    hide Find, End;
    if End(entries) + |name| + 6 <= size { RoundedDown(End(entries), EntrySize(name)); }
  }

  lemma EndSnoc(entries: seq<Entry>, e: Entry)
    ensures End(entries + [e]) == e.at + |e.name| + 6
  {
    assert (entries + [e])[|entries|] == e;
  }

  lemma RoundedDown(end: nat, n: nat)
    requires end > 0 && end + n < 0x10000
    ensures (end + n - n % 256) % 0x10000 != 0
  {
  }

  /** The checksum is the sum of the characters modulo 64. */
  lemma {:induction false} ChecksumAdds(a: Name, b: Name)
    requires |a| + |b| < 255
    ensures Checksum(a + b) == (Checksum(a) + Checksum(b)) % 64
    ensures |b| == 1 ==> Checksum(b) == b[0] % 64
    decreases |b|
  {
    SumAdds(a, b);
    assert |b| == 1 ==> b[..0] == [];
  }

  lemma {:induction false} SumAdds(a: seq<Byte>, b: seq<Byte>)
    ensures Sum(a + b) == Sum(a) + Sum(b)
    decreases |b|
  {
    if |b| == 0 {
      assert a + b == a;
    } else {
      SumAdds(a, b[..|b| - 1]);
      assert (a + b)[..|a + b| - 1] == a + b[..|b| - 1];
    }
  }

  /** Two pairs never share a place. */
  lemma PlacesDiffer(entries: seq<Entry>, size: nat, a: Name, ca: nat, b: Name, cb: nat)
    requires Packed(entries, size)
    requires Find(entries, a, ca) == Find(entries, b, cb) != 0
    ensures a == b && ca == cb
  {
    FindMeaning(entries, a, ca, size);
    FindMeaning(entries, b, cb, size);
    var x, y := Entry(Find(entries, a, ca), a, ca), Entry(Find(entries, b, cb), b, cb);
    var i :| 0 <= i < |entries| && entries[i] == x;
    var j :| 0 <= j < |entries| && entries[j] == y;
    if i < j { PlacesGrow(entries, size, i, j); } else if j < i { PlacesGrow(entries, size, j, i); }
  }

  lemma {:induction false} PlacesGrow(entries: seq<Entry>, size: nat, i: nat, j: nat)
    requires Packed(entries, size) && i < j < |entries|
    ensures entries[i].at + EntrySize(entries[i].name) <= entries[j].at
    decreases j
  {
    assert entries[j].at == End(entries[..j]);
    if i < j - 1 { PlacesGrow(entries, size, i, j - 1); }
  }

  lemma PlaceBounds(entries: seq<Entry>, size: nat, i: nat)
    requires Packed(entries, size) && i < |entries|
    ensures 0 < entries[i].at && entries[i].at + EntrySize(entries[i].name) <= End(entries) <= size
  {
    PackedPositive(entries, size, i);
    if i < |entries| - 1 { PlacesGrow(entries, size, i, |entries| - 1); }
  }

  lemma LatestBounds(entries: seq<Entry>, c: nat, size: nat)
    requires Packed(entries, size) && size <= 0x10000
    ensures Latest(entries, c) < 0x10000
  {
    var i := LinksDecrease(entries, c, size);
    if Latest(entries, c) != 0 { PlaceBounds(entries, size, i); }
  }

  /** What has been found once is found at the same place ever after. */
  lemma {:induction false} FindPersists(entries: seq<Entry>, later: seq<Entry>, size: nat, name: Name, channel: nat)
    requires Packed(later, size) && entries <= later && Find(entries, name, channel) != 0
    ensures Find(later, name, channel) == Find(entries, name, channel)
    decreases |later|
  {
    hide Packed, Find;
    if |later| == |entries| {
      assert later == entries;
    } else {
      var last := |later| - 1;
      PackedPrefix(later, size, last);
      PackedPrefix(later, size, |entries|);
      assert later[..|entries|] == entries && later[..last][..|entries|] == entries;
      FindPersists(entries, later[..last], size, name, channel);
      FindMeaning(entries, name, channel, size);
      var e := Entry(Find(entries, name, channel), name, channel);
      var i :| 0 <= i < |entries| && entries[i] == e;
      assert later[i] == e;
      FindSkipsOther(later, size, i);
    }
  }

  // The last entry is not the same pair as an earlier one.
  lemma FindSkipsOther(entries: seq<Entry>, size: nat, i: nat)
    requires Packed(entries, size) && i < |entries| - 1
    ensures var e := entries[i];
            Find(entries, e.name, e.channel) == Find(entries[..|entries| - 1], e.name, e.channel)
  {
  }

  /** A run of openings, of whatever pairs. */
  function Run(entries: seq<Entry>, calls: seq<(Name, nat)>, size: nat): seq<Entry>
    decreases |calls|
  {
    if |calls| == 0 then entries
    else Run(Opened(entries, calls[0].0, calls[0].1, size), calls[1..], size)
  }

  lemma {:induction false} RunKeepsEntries(entries: seq<Entry>, calls: seq<(Name, nat)>, size: nat)
    requires Packed(entries, size) && forall c <- calls :: c.1 < 0x10000
    ensures Packed(Run(entries, calls, size), size) && entries <= Run(entries, calls, size)
    decreases |calls|
  {
    if |calls| > 0 {
      OpenedStaysPacked(entries, calls[0].0, calls[0].1, size);
      RunKeepsEntries(Opened(entries, calls[0].0, calls[0].1, size), calls[1..], size);
    }
  }

  /** Opening a pair that is there or for which there is room, then any others, then the same pair
      again gives the same handle exactly when the pair was there already or its name has less than
      250 bytes: a longer name first gets a handle that is 256 too large. */
  lemma ReopenSame(entries: seq<Entry>, name: Name, channel: nat, calls: seq<(Name, nat)>, size: nat)
    requires Packed(entries, size) && channel < 0x10000 && size <= 0x10000 && forall c <- calls :: c.1 < 0x10000
    requires Find(entries, name, channel) != 0 || End(entries) + |name| + 5 < size
    ensures var first := Handle(entries, name, channel, size);
            var again := Handle(Run(Opened(entries, name, channel, size), calls, size), name, channel, size);
            && (first == again <==> Find(entries, name, channel) != 0 || |name| < 250)
            && again == if Find(entries, name, channel) != 0 then Find(entries, name, channel) else End(entries)
  {
    hide Packed, Run, Find, Handle, Opened;
    var grown := Opened(entries, name, channel, size);
    var later := Run(grown, calls, size);
    OpenedHandle(entries, name, channel, size);
    OpenedStaysPacked(entries, name, channel, size);
    RunKeepsEntries(grown, calls, size);
    FindPersists(grown, later, size, name, channel);
    FoundHandle(later, name, channel, size);
  }

  lemma FoundHandle(entries: seq<Entry>, name: Name, channel: nat, size: nat)
    requires Find(entries, name, channel) != 0
    ensures Handle(entries, name, channel, size) == Find(entries, name, channel)
  {
  }

  // The first call: the handle that is returned, and the place that later calls will find.
  lemma OpenedHandle(entries: seq<Entry>, name: Name, channel: nat, size: nat)
    requires Packed(entries, size) && size <= 0x10000
    requires Find(entries, name, channel) != 0 || End(entries) + |name| + 5 < size
    ensures var at := if Find(entries, name, channel) != 0 then Find(entries, name, channel) else End(entries);
            && Find(Opened(entries, name, channel, size), name, channel) == at != 0
            && Handle(entries, name, channel, size) ==
               if Find(entries, name, channel) == 0 && |name| >= 250 then (at + 256) % 0x10000 else at
  {
    FindMeaning(entries, name, channel, size);
    hide Packed;
    if Find(entries, name, channel) == 0 {
      var grown := Opened(entries, name, channel, size);
      assert grown[..|entries|] == entries && grown[|entries|] == Entry(End(entries), name, channel);
      hide Find, End;
      assert EntrySize(name) % 256 == if |name| < 250 then EntrySize(name) else EntrySize(name) - 256;
    }
  }

  /** For example: in the table of 800 bytes of trcSnapshotConfig.h, a first name of 250 bytes is at
      index 1, and that is what opening it again returns, but the first time 257 is returned. */
  lemma LongNameLosesItsHandle(name: Name)
    requires |name| == 250
    ensures Handle([], name, 0, 800) == 257 && Handle(Opened([], name, 0, 800), name, 0, 800) == 1
  {
    assert Opened([], name, 0, 800) == [Entry(1, name, 0)];
  }

  /** And another name that is opened next gets the same handle. */
  lemma LongNameSharesItsHandle(name: Name, other: Name)
    requires |name| == 250 && |other| < 250
    ensures var t := Opened([], name, 0, 800);
            Handle([], name, 0, 800) == 257 == Handle(t, other, 0, 800) ==
                Handle(Opened(t, other, 0, 800), other, 0, 800)
  {
    var t := [Entry(1, name, 0)];
    assert Opened([], name, 0, 800) == t && t[..0] == [] && Find([], other, 0) == 0;
    assert Find(t, other, 0) == 0 && End(t) == 257;
    var u := Opened(t, other, 0, 800);
    assert u == t + [Entry(257, other, 0)];
  }

  // ---------------------------------------------------------------------------------------------
  // Handles, as the calls of a run return them

  // The table that call `i` of a run finds.
  function Before(entries: seq<Entry>, calls: seq<(Name, nat)>, i: nat, size: nat): seq<Entry>
    requires i <= |calls|
  {
    Run(entries, calls[..i], size)
  }

  function Answer(entries: seq<Entry>, calls: seq<(Name, nat)>, i: nat, size: nat): nat
    requires i < |calls|
  {
    Handle(Before(entries, calls, i, size), calls[i].0, calls[i].1, size)
  }

  // The pair is not there and there is no room for it.
  predicate Refused(entries: seq<Entry>, calls: seq<(Name, nat)>, i: nat, size: nat)
    requires i < |calls|
  {
    var t := Before(entries, calls, i, size);
    Find(t, calls[i].0, calls[i].1) == 0 && End(t) + |calls[i].0| + 5 >= size
  }

  // The pair is put into the table, and its name is so long that its size is cut.
  predicate Shifted(entries: seq<Entry>, calls: seq<(Name, nat)>, i: nat, size: nat)
    requires i < |calls|
  {
    Find(Before(entries, calls, i, size), calls[i].0, calls[i].1) == 0 && !Refused(entries, calls, i, size) &&
    |calls[i].0| >= 250
  }

  // Two pairs are neighbours in the table.
  ghost predicate Neighbours(entries: seq<Entry>, a: (Name, nat), b: (Name, nat)) {
    exists x :: 0 <= x < |entries| - 1 && Holds(entries[x], a) && Holds(entries[x + 1], b)
  }

  predicate Holds(e: Entry, a: (Name, nat)) { e.name == a.0 && e.channel == a.1 }

  // Call `i` creates an entry of exactly 250 bytes, and call `j` is about the entry behind it.
  ghost predicate Clash(entries: seq<Entry>, calls: seq<(Name, nat)>, i: nat, j: nat, size: nat)
    requires i < |calls| && j < |calls|
  {
    && Shifted(entries, calls, i, size) && |calls[i].0| == 250
    && !Shifted(entries, calls, j, size) && !Refused(entries, calls, j, size)
    && Neighbours(Run(entries, calls, size), calls[i], calls[j])
  }

  lemma {:induction false} RunSplit(entries: seq<Entry>, calls: seq<(Name, nat)>, i: nat, size: nat)
    requires i <= |calls|
    ensures Run(entries, calls, size) == Run(Run(entries, calls[..i], size), calls[i..], size)
    decreases i
  {
    if i > 0 {
      RunSplit(Opened(entries, calls[0].0, calls[0].1, size), calls[1..], i - 1, size);
      assert calls[..i][1..] == calls[1..][..i - 1] && calls[1..][i - 1..] == calls[i..];
    } else {
      assert calls[0..] == calls;
    }
  }

  /** What a call returns, in terms of the place that its pair has at the end of the run. */
  lemma AnswerIs(entries: seq<Entry>, calls: seq<(Name, nat)>, i: nat, size: nat)
    requires Packed(entries, size) && size <= 0x10000 && i < |calls| && forall c <- calls :: c.1 < 0x10000
    ensures var at := Find(Run(entries, calls, size), calls[i].0, calls[i].1);
            var answer := Answer(entries, calls, i, size);
            if Refused(entries, calls, i, size) then answer == 0
            else at != 0 && answer == if Shifted(entries, calls, i, size) then (at + 256) % 0x10000 else at
  {
    hide Packed, Run, Find, Opened, End;
    var t, name, channel := Before(entries, calls, i, size), calls[i].0, calls[i].1;
    assert forall c <- calls[..i] :: c in calls;
    RunKeepsEntries(entries, calls[..i], size);
    if !Refused(entries, calls, i, size) {
      var grown := Opened(t, name, channel, size);
      OpenedHandle(t, name, channel, size);
      OpenedStaysPacked(t, name, channel, size);
      RunSplit(entries, calls, i, size);
      RunOnce(t, calls[i..], size);
      assert forall c <- calls[i..][1..] :: c in calls;
      RunKeepsEntries(grown, calls[i..][1..], size);
      FindPersists(grown, Run(entries, calls, size), size, name, channel);
    }
  }

  lemma RunOnce(entries: seq<Entry>, calls: seq<(Name, nat)>, size: nat)
    requires |calls| > 0
    ensures Run(entries, calls, size) == Run(Opened(entries, calls[0].0, calls[0].1, size), calls[1..], size)
  {
  }

  /** In any run, two calls about different pairs get the same handle if and only if one of them creates
      an entry for a name of exactly 250 bytes and the other one is answered with the place of the entry
      right behind it. */
  lemma HandlesClash(entries: seq<Entry>, calls: seq<(Name, nat)>, i: nat, j: nat, size: nat)
    requires Packed(entries, size) && size <= 0x10000 && forall c <- calls :: c.1 < 0x10000
    requires i < |calls| && j < |calls| && calls[i] != calls[j]
    ensures Answer(entries, calls, i, size) == Answer(entries, calls, j, size) != 0 <==>
              Clash(entries, calls, i, j, size) || Clash(entries, calls, j, i, size)
  {
    hide Packed, Run, Find, Answer, Neighbours, Shifted, Refused;
    AnswerIs(entries, calls, i, size);
    AnswerIs(entries, calls, j, size);
    ShiftedIsLong(entries, calls, i, size);
    ShiftedIsLong(entries, calls, j, size);
    RunKeepsEntries(entries, calls, size);
    var t := Run(entries, calls, size);
    if !Refused(entries, calls, i, size) && !Refused(entries, calls, j, size) {
      PlacesApart(t, calls[i], calls[j], size);
      PlacesApart(t, calls[j], calls[i], size);
      var x, y := Find(t, calls[i].0, calls[i].1), Find(t, calls[j].0, calls[j].1);
      assert |calls[i].0| >= 250 ==> (x + 256) % 0x10000 == if x + 256 == 0x10000 then 0 else x + 256;
      assert |calls[j].0| >= 250 ==> (y + 256) % 0x10000 == if y + 256 == 0x10000 then 0 else y + 256;
    }
  }

  lemma ShiftedIsLong(entries: seq<Entry>, calls: seq<(Name, nat)>, i: nat, size: nat)
    requires i < |calls|
    ensures Shifted(entries, calls, i, size) ==> |calls[i].0| >= 250 && !Refused(entries, calls, i, size)
  {
  }

  // A place is 256 behind that of a long name only if it is the next one and the name has 250 bytes.
  lemma PlacesApart(entries: seq<Entry>, a: (Name, nat), b: (Name, nat), size: nat)
    requires Packed(entries, size) && size <= 0x10000 && a != b
    requires Find(entries, a.0, a.1) != 0 && Find(entries, b.0, b.1) != 0
    ensures var x, y := Find(entries, a.0, a.1), Find(entries, b.0, b.1);
            && x != y && x < 0x10000
            && (|a.0| >= 250 ==> x + 256 <= 0x10000 && (x + 256 == y <==> |a.0| == 250 && Neighbours(entries, a, b)))
  {
    hide Packed, Find, End;
    var i := IndexOf(entries, a, size);
    var j := IndexOf(entries, b, size);
    PlaceBounds(entries, size, i);
    if i < j {
      PlacesGrow(entries, size, i, j);
      if i + 1 < j { PlacesGrow(entries, size, i, i + 1); PlacesGrow(entries, size, i + 1, j); }
      if i + 1 == j { assert Holds(entries[i], a) && Holds(entries[i + 1], b); NextPlace(entries, size, i); }
    } else {
      PlacesGrow(entries, size, j, i);
    }
    if Neighbours(entries, a, b) {
      var x :| 0 <= x < |entries| - 1 && Holds(entries[x], a) && Holds(entries[x + 1], b);
      OnlyOnce(entries, size, i, x);
      OnlyOnce(entries, size, j, x + 1);
    }
  }

  lemma IndexOf(entries: seq<Entry>, a: (Name, nat), size: nat) returns (i: nat)
    requires Packed(entries, size) && Find(entries, a.0, a.1) != 0
    ensures i < |entries| && Holds(entries[i], a) && entries[i].at == Find(entries, a.0, a.1)
  {
    hide Packed, Find;
    FindMeaning(entries, a.0, a.1, size);
    i :| 0 <= i < |entries| && entries[i] == Entry(Find(entries, a.0, a.1), a.0, a.1);
  }

  lemma NextPlace(entries: seq<Entry>, size: nat, i: nat)
    requires Packed(entries, size) && i + 1 < |entries|
    ensures entries[i + 1].at == entries[i].at + EntrySize(entries[i].name)
  {
    assert entries[..i + 1][i] == entries[i];
  }

  lemma OnlyOnce(entries: seq<Entry>, size: nat, i: nat, j: nat)
    requires Packed(entries, size) && i < |entries| && j < |entries|
    requires entries[i].name == entries[j].name && entries[i].channel == entries[j].channel
    ensures i == j
  {
  }

  /** So as long as no name has exactly 250 bytes, different pairs get different handles. */
  lemma HandlesDiffer(entries: seq<Entry>, calls: seq<(Name, nat)>, i: nat, j: nat, size: nat)
    requires Packed(entries, size) && size <= 0x10000 && forall c <- calls :: c.1 < 0x10000 && |c.0| != 250
    requires i < |calls| && j < |calls|
    requires Answer(entries, calls, i, size) == Answer(entries, calls, j, size) != 0
    ensures calls[i] == calls[j]
  {
    hide Packed, Answer, Neighbours, Shifted, Refused;
    assert calls[i] in calls && calls[j] in calls;
    if calls[i] != calls[j] { HandlesClash(entries, calls, i, j, size); }
  }

  // ---------------------------------------------------------------------------------------------
  // The bytes

  /** An entry as it lies in the pool. */
  ghost predicate Stored(a: seq<Byte>, entries: seq<Entry>, i: nat)
    requires i < |entries|
  {
    var e := entries[i];
    && e.at + EntrySize(e.name) <= |a|
    && a[e.at] + 256 * a[e.at + 1] as nat == Latest(entries[..i], Checksum(e.name))
    && a[e.at + 2] + 256 * a[e.at + 3] as nat == e.channel
    && a[e.at + 4..e.at + EntrySize(e.name)] == e.name + [0, 0]
  }

  lemma StoredKept(a: seq<Byte>, b: seq<Byte>, entries: seq<Entry>, more: seq<Entry>, i: nat)
    requires i < |entries| && entries <= more && Stored(a, entries, i) && |a| == |b|
    requires entries[i].at + EntrySize(entries[i].name) <= |a|
    requires b[..entries[i].at + EntrySize(entries[i].name)] == a[..entries[i].at + EntrySize(entries[i].name)]
    ensures Stored(b, more, i)
  {
    var e := entries[i];
    var n := e.at + EntrySize(e.name);
    assert more[..i] == entries[..i];
    forall k | 0 <= k < n ensures a[k] == b[k] {
      assert a[k] == a[..n][k] && b[k] == b[..n][k];
    }
  }

  /** The entries of one checksum are linked backwards: a link is 0 or goes to an earlier entry. */
  lemma {:induction false} LinksDecrease(entries: seq<Entry>, c: nat, size: nat) returns (i: nat)
    requires Packed(entries, size)
    ensures if Latest(entries, c) == 0
            then i == 0 && forall e <- entries :: Checksum(e.name) != c
            else && i < |entries| && Latest(entries, c) == entries[i].at && Checksum(entries[i].name) == c
                 && Latest(entries[..i], c) < entries[i].at
                 && forall k :: i < k < |entries| ==> Checksum(entries[k].name) != c
    decreases |entries|
  {
    hide Packed, Checksum;
    if |entries| == 0 {
      i := 0;
    } else {
      var last := |entries| - 1;
      PackedPositive(entries, size, last);
      PackedPrefix(entries, size, last);
      assert entries == entries[..last] + [entries[last]];
      i := LinksDecrease(entries[..last], c, size);
      if Checksum(entries[last].name) == c {
        if Latest(entries[..last], c) != 0 { PlacesGrow(entries, size, i, last); }
        i := last;
      } else if Latest(entries, c) != 0 {
        assert entries[..last][..i] == entries[..i];
      }
    }
  }

  class Table {
    const size: nat                    // TRC_CFG_SYMBOL_TABLE_SIZE
    const symbytes: array<Byte>
    const latest: array<nat>           // latestEntryOfChecksum
    var nextFree: nat                  // nextFreeSymbolIndex

    ghost var entries: seq<Entry>

    /** A lookup reads one byte behind where a longer name would end, so the pool has that much slack. */
    ghost predicate Valid()
      reads this, symbytes, latest
    {
      && size <= 0x10000 && size + 260 <= symbytes.Length && latest.Length == 64
      && Packed(entries, size) && nextFree == End(entries)
      && (forall c :: 0 <= c < 64 ==> latest[c] == Latest(entries, c))
      && (forall i :: 0 <= i < |entries| ==> Stored(symbytes[..], entries, i))
    }

    constructor (size: nat)
      requires 0 < size <= 0x10000
      ensures Valid() && entries == [] && this.size == size && fresh(symbytes) && fresh(latest)
    {
      this.size := size;
      symbytes := new Byte[size + 260](_ => 0);
      latest := new nat[64](_ => 0);
      nextFree, entries := 1, [];
    }

    /** prvTraceGetChecksum */
    method GetChecksum(name: Name) returns (crc: nat, len: nat)
      ensures crc == Checksum(name) && len == |name| + 1 < 256
    {
      var i: nat, sum: nat := 0, 0;
      while i < |name|
        invariant i <= |name| && sum == Sum(name[..i])
      {
        assert name[..i + 1][..i] == name[..i];
        sum := sum + name[i];
        i := i + 1;
      }
      assert name[..i] == name;
      return sum % 64, i + 1;
    }

    // strncmp over the name and its NUL: it stops at the first NUL, which is the name's own.
    method SameName(at: nat, name: Name, len: nat) returns (same: bool)
      requires len == |name| + 1 && at + len <= symbytes.Length
      ensures same <==> symbytes[at..at + len] == name + [0]
    {
      var k := 0;
      while k < len
        invariant k <= len && symbytes[at..at + k] == (name + [0])[..k]
      {
        var c := if k < |name| then name[k] else 0;
        if symbytes[at + k] != c {
          assert symbytes[at..at + len][k] != (name + [0])[k];
          return false;
        }
        k := k + 1;
      }
      return true;
    }

    /** prvTraceLookupSymbolTableEntry: the chain of the name's checksum, from the latest entry back. */
    method LookupEntry(name: Name, crc: nat, len: nat, channel: nat) returns (i: nat)
      requires Valid() && crc == Checksum(name) && len == |name| + 1 && channel < 0x10000
      ensures i == Find(entries, name, channel)
    {
      hide Latest, Find, Packed, Stored;
      i := latest[crc];
      ghost var k := |entries|;
      assert entries[..k] == entries;
      while i != 0
        invariant k <= |entries| && i == Latest(entries[..k], crc)
        invariant Find(entries, name, channel) == Find(entries[..k], name, channel)
        decreases i
      {
        PackedPrefix(entries, size, k);
        ghost var j := LinksDecrease(entries[..k], crc, size);
        assert entries[..k][..j] == entries[..j];
        FindSkips(entries[..k], name, channel, j);
        PlaceBounds(entries, size, j);
        EntryMatches(symbytes[..], entries, j, name, channel);
        var found := symbytes[i + 2] == channel % 256 && symbytes[i + 3] == channel / 256 && symbytes[i + 4 + len] == 0;
        if found {
          found := SameName(i + 4, name, len);
          if found { break; }
        }
        i := symbytes[i] + 256 * symbytes[i + 1] as nat;
        k := j;
      }
      if i == 0 {
        PackedPrefix(entries, size, k);
        NothingFound(entries[..k], name, channel, size);
      }
    }

    /** prvTraceCreateSymbolTableEntry, whether the pair is there already or not. */
    method CreateEntry(name: Name, crc: nat, len: nat, channel: nat) returns (handle: nat)
      requires Valid() && crc == Checksum(name) && len == |name| + 1 && channel < 0x10000
      requires Find(entries, name, channel) == 0
      modifies this, symbytes, latest
      ensures Valid() && entries == Opened(old(entries), name, channel, size)
      ensures handle == Handle(old(entries), name, channel, size)
    {
      hide Packed, Stored, Latest, Find, Checksum, Opened, Handle, End;
      NewOpened(entries, name, channel, size);
      if nextFree + len + 4 >= size { return 0; }
      ghost var before, at := symbytes[..], nextFree;
      ghost var grown := entries + [Entry(at, name, channel)];
      OpenedStaysPacked(entries, name, channel, size);
      LatestBounds(entries, crc, size);
      WriteEntry(latest[crc], name, len, channel);
      AllStored(before, symbytes[..], entries, name, channel, size);
      LatestGrows(entries, Entry(at, name, channel));
      latest[crc] := nextFree;
      nextFree := nextFree + len + 5;
      handle := (nextFree - (len + 5) % 256) % 0x10000;
      entries := grown;
    }

    // The bytes of a new entry, at the next free index.
    method WriteEntry(link: nat, name: Name, len: nat, channel: nat)
      requires len == |name| + 1 && nextFree + len + 5 <= symbytes.Length && link < 0x10000 && channel < 0x10000
      modifies symbytes
      ensures symbytes[..nextFree] == old(symbytes[..nextFree])
      ensures symbytes[nextFree] == link % 256 && symbytes[nextFree + 1] == link / 256
      ensures symbytes[nextFree + 2] == channel % 256 && symbytes[nextFree + 3] == channel / 256
      ensures symbytes[nextFree + 4..nextFree + EntrySize(name)] == name + [0, 0]
    {
      symbytes[nextFree] := link % 256;
      symbytes[nextFree + 1] := link / 256;
      symbytes[nextFree + 2] := channel % 256;
      symbytes[nextFree + 3] := channel / 256;
      ghost var head := symbytes[..nextFree + 4];
      ghost var b0, b1, b2, b3 :=
          symbytes[nextFree], symbytes[nextFree + 1], symbytes[nextFree + 2], symbytes[nextFree + 3];
      CopyName(nextFree + 4, name, len);
      ghost var copied := symbytes[nextFree + 4..nextFree + 4 + len];
      assert symbytes[..nextFree + 4] == head;
      symbytes[nextFree + 4 + len] := 0;
      assert symbytes[..nextFree + 4] == head;
      assert symbytes[..nextFree] == head[..nextFree];
      assert symbytes[nextFree] == head[nextFree] == b0 && symbytes[nextFree + 1] == head[nextFree + 1] == b1;
      assert symbytes[nextFree + 2] == head[nextFree + 2] == b2 && symbytes[nextFree + 3] == head[nextFree + 3] == b3;
      assert symbytes[nextFree + 4..nextFree + EntrySize(name)] == copied + [0];
    }

    // prvStrncpy: the name and its NUL.
    method CopyName(at: nat, name: Name, len: nat)
      requires len == |name| + 1 && at + len <= symbytes.Length
      modifies symbytes
      ensures symbytes[at..at + len] == name + [0]
      ensures symbytes[..at] == old(symbytes[..at]) && symbytes[at + len..] == old(symbytes[at + len..])
    {
      var k := 0;
      while k < len
        invariant k <= len && symbytes[at..at + k] == (name + [0])[..k]
        invariant symbytes[..at] == old(symbytes[..at])
        invariant forall i :: at + k <= i < symbytes.Length ==> symbytes[i] == old(symbytes[i])
      {
        symbytes[at + k] := if k < |name| then name[k] else 0;
        k := k + 1;
      }
    }

    /** prvTraceOpenSymbol */
    method OpenSymbol(name: Name, channel: nat) returns (handle: nat)
      requires Valid() && channel < 0x10000
      modifies this, symbytes, latest
      ensures Valid() && entries == Opened(old(entries), name, channel, size)
      ensures handle == Handle(old(entries), name, channel, size)
    {
      var crc, len := GetChecksum(name);
      handle := LookupEntry(name, crc, len, channel);
      if handle == 0 {
        handle := CreateEntry(name, crc, len, channel);
      }
    }
  }

  lemma LatestGrows(entries: seq<Entry>, e: Entry)
    ensures forall c :: Latest(entries + [e], c) == if Checksum(e.name) == c then e.at else Latest(entries, c)
  {
    hide Checksum;
    assert (entries + [e])[..|entries|] == entries;
  }

  // The entries that were there are still there, and the new one has been stored behind them.
  lemma AllStored(a: seq<Byte>, b: seq<Byte>, entries: seq<Entry>, name: Name, channel: nat, size: nat)
    requires Packed(entries, size) && (forall i :: 0 <= i < |entries| ==> Stored(a, entries, i))
    requires var at := End(entries); var link := Latest(entries, Checksum(name));
             && at + EntrySize(name) <= |b| == |a| && b[..at] == a[..at] && link < 0x10000 && channel < 0x10000
             && b[at] == link % 256 && b[at + 1] == link / 256
             && b[at + 2] == channel % 256 && b[at + 3] == channel / 256
             && b[at + 4..at + EntrySize(name)] == name + [0, 0]
    ensures var grown := entries + [Entry(End(entries), name, channel)];
            forall i :: 0 <= i < |grown| ==> Stored(b, grown, i)
  {
    hide Packed, Stored, Checksum, Latest, End;
    var at, grown := End(entries), entries + [Entry(End(entries), name, channel)];
    NewStored(b, entries, name, channel);
    forall i | 0 <= i < |entries| ensures Stored(b, grown, i) {
      PlaceBounds(entries, size, i);
      var n := entries[i].at + EntrySize(entries[i].name);
      assert b[..n] == b[..at][..n] && a[..n] == a[..at][..n];
      StoredKept(a, b, entries, grown, i);
    }
  }

  lemma NewStored(b: seq<Byte>, entries: seq<Entry>, name: Name, channel: nat)
    requires var at := End(entries); var link := Latest(entries, Checksum(name));
             && at + EntrySize(name) <= |b| && link < 0x10000 && channel < 0x10000
             && b[at] == link % 256 && b[at + 1] == link / 256
             && b[at + 2] == channel % 256 && b[at + 3] == channel / 256
             && b[at + 4..at + EntrySize(name)] == name + [0, 0]
    ensures Stored(b, entries + [Entry(End(entries), name, channel)], |entries|)
  {
    hide Checksum, Latest, End;
    assert (entries + [Entry(End(entries), name, channel)])[..|entries|] == entries;
  }

  lemma NewOpened(entries: seq<Entry>, name: Name, channel: nat, size: nat)
    requires Find(entries, name, channel) == 0
    ensures End(entries) + |name| + 5 >= size ==>
              Opened(entries, name, channel, size) == entries && Handle(entries, name, channel, size) == 0
    ensures End(entries) + |name| + 5 < size ==>
              && Opened(entries, name, channel, size) == entries + [Entry(End(entries), name, channel)]
              && End(Opened(entries, name, channel, size)) == End(entries) + |name| + 6
              && Handle(entries, name, channel, size) ==
                 (End(entries) + |name| + 6 - (|name| + 6) % 256) % 0x10000
  {
  }

  lemma {:induction false} FindSkips(entries: seq<Entry>, name: Name, channel: nat, j: nat)
    requires j < |entries| && forall k :: j < k < |entries| ==> Checksum(entries[k].name) != Checksum(name)
    ensures Find(entries, name, channel) ==
            if entries[j].name == name && entries[j].channel == channel then entries[j].at
            else Find(entries[..j], name, channel)
    decreases |entries|
  {
    hide Checksum;
    var last := |entries| - 1;
    if j < last {
      FindSkips(entries[..last], name, channel, j);
      assert entries[..last][..j] == entries[..j];
    }
  }

  lemma NothingFound(entries: seq<Entry>, name: Name, channel: nat, size: nat)
    requires Packed(entries, size) && Latest(entries, Checksum(name)) == 0
    ensures Find(entries, name, channel) == 0
  {
    var i := LinksDecrease(entries, Checksum(name), size);
    FindMeaning(entries, name, channel, size);
  }

  // What the comparisons on an entry's bytes decide.
  lemma EntryMatches(a: seq<Byte>, entries: seq<Entry>, i: nat, name: Name, channel: nat)
    requires i < |entries| && Stored(a, entries, i) && channel < 0x10000
    ensures var at := entries[i].at;
            && at + 6 <= |a| && a[at] + 256 * a[at + 1] as nat == Latest(entries[..i], Checksum(entries[i].name))
            && (a[at + 2] == channel % 256 && a[at + 3] == channel / 256 <==> entries[i].channel == channel)
            && (entries[i].name == name ==> at + 5 + |name| < |a| && a[at + 5 + |name|] == 0)
            && (at + 5 + |name| <= |a| ==>
                  (a[at + 4..at + 5 + |name|] == name + [0] <==> entries[i].name == name))
  {
    var e := entries[i];
    var t := a[e.at + 4..e.at + EntrySize(e.name)];
    assert t == e.name + [0, 0];
    if e.name == name {
      assert a[e.at + 5 + |name|] == t[|name| + 1];
      assert a[e.at + 4..e.at + 5 + |name|] == t[..|name| + 1];
    }
    if e.at + 5 + |name| <= |a| && a[e.at + 4..e.at + 5 + |name|] == name + [0] {
      var u := a[e.at + 4..e.at + 5 + |name|];
      assert forall k | 0 <= k < |u| && k < |t| :: u[k] == a[e.at + 4 + k] == t[k];
      SameUpToNul(u, t, name, e.name);
    }
  }

  lemma SameUpToNul(u: seq<Byte>, t: seq<Byte>, x: Name, y: Name)
    requires u == x + [0] && t == y + [0, 0] && forall k :: 0 <= k < |u| && k < |t| ==> u[k] == t[k]
    ensures x == y
  {
    assert forall k: nat :: k < |u| && k < |t| ==> ByteAt(u, k) == ByteAt(t, k);
    assert forall k: nat :: ByteAt(u, k) == ByteAt(x, k) && ByteAt(t, k) == ByteAt(y, k);
    NonZero(x, |y|);
    NonZero(y, |x|);
    assert ByteAt(u, |y|) == ByteAt(x, |y|) && ByteAt(t, |y|) == 0;
    assert ByteAt(t, |x|) == ByteAt(y, |x|) && ByteAt(u, |x|) == 0;
    assert |x| == |y|;
    assert forall k | 0 <= k < |x| :: x[k] == u[k] && y[k] == t[k];
  }

  // 0 behind the end
  function ByteAt(t: seq<Byte>, k: nat): Byte { if k < |t| then t[k] else 0 }

  lemma NonZero(name: Name, k: nat)
    ensures k < |name| ==> ByteAt(name, k) != 0
  {
    assert k < |name| ==> name[k] in name;
  }
}
