/** The paged event buffer of the streaming trace recorder (TraceRecorder/trcStreamingRecorder.c:1831-2031):
    events are written into pages, full pages are handed to the host, page by page. */
module TracePages {
  import opened Bytes
  import opened Wrappers

  // A page that waits to be read or not, and the bytes written into it so far.
  datatype Page = Page(ready: bool, bytes: seq<Byte>)

  const EMPTY := Page(false, [])

  /** The buffer: `write` is currentWritePage (None for -1), `last` the page read last (or -1). */
  datatype Queue = Queue(size: nat, pages: seq<Page>, write: Option<nat>, last: int, total: int, dropped: nat) {
    predicate Valid() {
      && 0 < |pages| && -1 <= last < |pages|
      && (forall i | 0 <= i < |pages| :: |pages[i].bytes| <= size)
      && (write.Some? ==> write.value < |pages| && !pages[write.value].ready)
      && (forall i | 0 <= i < |pages| && !pages[i].ready && write != Some(i) :: pages[i].bytes == [])
    }
  }

  function Next(i: int, count: nat): (j: nat)
    requires -1 <= i < count && 0 < count
    ensures j < count
  {
    if i + 1 == count then 0 else i + 1
  }

  // The first page at or behind `from`, going round, that is ready or is not.
  function Seek(pages: seq<Page>, ready: bool, from: nat, tries: nat): (r: Option<nat>)
    requires from < |pages|
    ensures r.Some? ==> r.value < |pages| && pages[r.value].ready == ready
    decreases tries
  {
    if tries == 0 then None
    else if pages[from].ready == ready then Some(from)
    else Seek(pages, ready, Next(from, |pages|), tries - 1)
  }

  // prvAllocateBufferPage
  function Allocated(q: Queue, previous: int): (r: Option<nat>)
    requires 0 < |q.pages| && -1 <= previous < |q.pages|
    ensures r.Some? ==> r.value < |q.pages| && !q.pages[r.value].ready
  {
    Seek(q.pages, false, Next(previous, |q.pages|), |q.pages|)
  }

  function Drop(q: Queue): Queue {
    q.(write := None, dropped := q.dropped + 1)
  }

  // The page being written gives up what it has left and waits for its reader.
  function Close(q: Queue): Queue
    requires q.Valid() && q.write.Some?
  {
    var page := q.pages[q.write.value];
    q.(pages := q.pages[q.write.value := page.(ready := true)], total := q.total - (q.size - |page.bytes|))
  }

  // A page with room for `n` more bytes has been found, or the event has been dropped.
  function Opened(q: Queue, n: nat): (r: Queue)
    requires q.Valid() && n <= q.size
  {
    if q.write.None? then
      match Allocated(q, -1)
      case None => Drop(q)
      case Some(i) => MoveOn(q.(write := Some(i)), n)
    else MoveOn(q, n)
  }

  function MoveOn(q: Queue, n: nat): Queue
    requires q.Valid() && q.write.Some?
  {
    if q.size - |q.pages[q.write.value].bytes| >= n then q
    else
      match Allocated(Close(q), q.write.value)
      case None => Drop(Close(q))
      case Some(i) => Close(q).(write := Some(i))
  }

  function Append(q: Queue, event: seq<Byte>): Queue
    requires q.write.Some? ==> q.write.value < |q.pages|
  {
    if q.write.None? then q
    else
      var w := q.write.value;
      q.(pages := q.pages[w := q.pages[w].(bytes := q.pages[w].bytes + event)], total := q.total - |event|)
  }

  /** prvPagedEventBufferGetWritePointer, and the event its caller then puts there. */
  function Stored(q: Queue, event: seq<Byte>): Queue
    requires q.Valid() && |event| <= q.size
  {
    Append(Opened(q, |event|), event)
  }

  // prvGetBufferPage
  function Fetched(q: Queue): (r: Option<nat>)
    requires q.Valid()
    ensures r.Some? ==> r.value < |q.pages| && q.pages[r.value].ready
  {
    Seek(q.pages, true, Next(q.last, |q.pages|), |q.pages|)
  }

  // prvPageReadComplete
  function Released(q: Queue, i: nat): Queue
    requires i < |q.pages|
  {
    q.(pages := q.pages[i := EMPTY], total := q.total + q.size)
  }

  function Empty(count: nat, size: nat): Queue {
    Queue(size, seq(count, _ => EMPTY), None, -1, count * size, 0)
  }

  // ---------------------------------------------------------------------------------------------
  // The writer and the reader, step by step and in any order

  datatype Event =
    | Write(event: seq<Byte>)
    | Fetch
    | Send(n: nat)
    | Fail

  /** `sending` counts the bytes the port has taken of page `last`, while that one is transferred;
      `accepted` and `sent` are what has gone in and out. */
  datatype System = System(q: Queue, sending: Option<nat>, accepted: seq<Byte>, sent: seq<Byte>)

  predicate Enabled(s: System, e: Event) {
    match e
    case Write(event) => s.q.Valid() && |event| <= s.q.size
    case Fetch => s.q.Valid() && s.sending.None?
    case Send(n) => s.sending.Some? && 0 <= s.q.last < |s.q.pages| && s.sending.value + n <= |s.q.pages[s.q.last].bytes|
    case Fail => s.sending.Some?
  }

  function Step(s: System, e: Event): System
    requires Enabled(s, e)
  {
    match e
    case Write(event) =>
      var q := Stored(s.q, event);
      s.(q := q, accepted := s.accepted + if q.write.Some? then event else [])
    case Fetch =>
      var page := Fetched(s.q);
      if page.None? then s else s.(q := s.q.(last := page.value), sending := Some(0))
    case Send(n) =>
      var bytes, done := s.q.pages[s.q.last].bytes, s.sending.value + n;
      var s' := s.(sent := s.sent + bytes[s.sending.value..done]);
      if done < |bytes| then s'.(sending := Some(done)) else s'.(q := Released(s.q, s.q.last), sending := None)
    case Fail => s.(sending := None)
  }

  function Run(s: System, events: seq<Event>): Option<System>
    decreases |events|
  {
    if |events| == 0 then Some(s)
    else
      var before := Run(s, events[..|events| - 1]);
      var e := events[|events| - 1];
      if before.Some? && Enabled(before.value, e) then Some(Step(before.value, e)) else None
  }

  function Start(count: nat, size: nat): System {
    System(Empty(count, size), None, [], [])
  }

  // ---------------------------------------------------------------------------------------------
  // What is counted

  function Own(page: Page, size: nat): int { if page.ready then 0 else size - |page.bytes| }

  function Room(pages: seq<Page>, size: nat): int {
    if |pages| == 0 then 0 else Own(pages[0], size) + Room(pages[1..], size)
  }

  lemma {:induction false} RoomUpdate(pages: seq<Page>, i: nat, page: Page, size: nat)
    requires i < |pages|
    ensures Room(pages[i := page], size) == Room(pages, size) - Own(pages[i], size) + Own(page, size)
  {
    if i == 0 {
      assert pages[i := page][1..] == pages[1..];
    } else {
      RoomUpdate(pages[1..], i - 1, page, size);
      assert pages[i := page][1..] == pages[1..][i - 1 := page];
    }
  }

  /** TotalBytesRemaining is the room in the pages that do not wait to be read. */
  ghost predicate Counted(s: System) {
    && s.q.Valid() && s.q.total == Room(s.q.pages, s.q.size)
    && (s.sending.Some? ==> 0 <= s.q.last && s.q.pages[s.q.last].ready &&
                            s.sending.value <= |s.q.pages[s.q.last].bytes|)
  }

  ghost predicate Grown(q: Queue, r: Queue) {
    && r.Valid() && r.total == Room(r.pages, r.size)
    && r.last == q.last && |r.pages| == |q.pages| && r.size == q.size
    && (forall i | 0 <= i < |q.pages| && q.pages[i].ready :: r.pages[i] == q.pages[i])
  }

  lemma MoveOnCounts(q: Queue, n: nat)
    requires q.Valid() && n <= q.size && q.total == Room(q.pages, q.size) && q.write.Some?
    ensures var r := MoveOn(q, n);
            Grown(q, r) && (r.write.Some? ==> |r.pages[r.write.value].bytes| + n <= q.size)
  {
    hide Room;
    var page := q.pages[q.write.value];
    RoomUpdate(q.pages, q.write.value, page.(ready := true), q.size);
  }

  lemma OpenedCounts(q: Queue, n: nat)
    requires q.Valid() && n <= q.size && q.total == Room(q.pages, q.size)
    ensures var r := Opened(q, n);
            Grown(q, r) && (r.write.Some? ==> |r.pages[r.write.value].bytes| + n <= q.size)
  {
    hide Room, MoveOn, Seek;
    if q.write.Some? {
      MoveOnCounts(q, n);
    } else if Allocated(q, -1).Some? {
      MoveOnCounts(q.(write := Allocated(q, -1)), n);
    }
  }

  lemma StoredCounts(q: Queue, event: seq<Byte>)
    requires q.Valid() && |event| <= q.size && q.total == Room(q.pages, q.size)
    ensures Grown(q, Stored(q, event))
  {
    hide Room, Opened;
    OpenedCounts(q, |event|);
    var p := Opened(q, |event|);
    if p.write.Some? {
      var page := p.pages[p.write.value];
      RoomUpdate(p.pages, p.write.value, page.(bytes := page.bytes + event), p.size);
    }
  }

  lemma ReleasedCounts(q: Queue, i: nat)
    requires q.Valid() && i < |q.pages| && q.pages[i].ready && q.total == Room(q.pages, q.size)
    ensures var r := Released(q, i); r.Valid() && r.total == Room(r.pages, r.size)
  {
    hide Room;
    RoomUpdate(q.pages, i, EMPTY, q.size);
  }

  lemma StepCounts(s: System, e: Event)
    requires Counted(s) && Enabled(s, e)
    ensures Counted(Step(s, e))
  {
    hide Room, Stored;
    match e
    case Write(event) => StoredCounts(s.q, event);
    case Send(n) => ReleasedCounts(s.q, s.q.last);
    case _ =>
  }

  lemma {:induction false} EmptyRoom(count: nat, size: nat)
    ensures Room(Empty(count, size).pages, size) == count * size
  {
    if count > 0 {
      EmptyRoom(count - 1, size);
      assert Empty(count, size).pages[1..] == Empty(count - 1, size).pages;
    }
  }

  /** After any run, whatever was dropped and however transfers failed, the counter is right; and no
      event was written into a page that waits to be read. */
  lemma {:induction false} RunCounts(count: nat, size: nat, events: seq<Event>)
    requires 0 < count && Run(Start(count, size), events).Some?
    ensures Counted(Run(Start(count, size), events).value)
    decreases |events|
  {
    if |events| == 0 {
      EmptyRoom(count, size);
    } else {
      RunCounts(count, size, events[..|events| - 1]);
      StepCounts(Run(Start(count, size), events[..|events| - 1]).value, events[|events| - 1]);
    }
  }

  /** Restarting the recorder clears the pages but not the counter, nor where writing and reading stand:
      the counter stays right exactly when nothing was in the buffer. */
  lemma RestartCounts(q: Queue)
    requires q.Valid() && q.total == Room(q.pages, q.size) && 0 < q.size
    ensures var r := q.(pages := Empty(|q.pages|, q.size).pages);
            r.total == Room(r.pages, r.size) <==> forall i | 0 <= i < |q.pages| :: q.pages[i] == EMPTY
  {
    EmptyRoom(|q.pages|, q.size);
    FullRoom(q.pages, q.size);
  }

  predicate AllEmpty(pages: seq<Page>) {
    forall i | 0 <= i < |pages| :: pages[i] == EMPTY
  }

  lemma AllEmptyCons(pages: seq<Page>)
    requires 0 < |pages|
    ensures AllEmpty(pages) <==> pages[0] == EMPTY && AllEmpty(pages[1..])
  {
    if pages[0] == EMPTY && AllEmpty(pages[1..]) {
      assert forall i | 0 < i < |pages| :: pages[i] == pages[1..][i - 1];
    }
  }

  lemma {:induction false} FullRoom(pages: seq<Page>, size: nat)
    requires 0 < size && forall i | 0 <= i < |pages| :: |pages[i].bytes| <= size
    ensures Room(pages, size) <= |pages| * size
    ensures Room(pages, size) == |pages| * size <==> AllEmpty(pages)
  {
    if |pages| > 0 {
      hide AllEmpty;
      FullRoom(pages[1..], size);
      AllEmptyCons(pages);
      assert Own(pages[0], size) <= size && (Own(pages[0], size) == size <==> pages[0] == EMPTY);
      assert |pages| * size == size + |pages[1..]| * size;
    }
  }

  // ---------------------------------------------------------------------------------------------
  // What is delivered, and in what order

  // The page that is `d` places behind `first`.
  function Place(first: nat, d: nat, count: nat): nat {
    if first + d < count then first + d else (first + d) - count
  }

  // Where reading goes on: at the page being sent, or behind the one sent last.
  function First(s: System): (i: nat)
    requires Counted(s)
    ensures i < |s.q.pages|
  {
    if s.sending.Some? then s.q.last else Next(s.q.last, |s.q.pages|)
  }

  function Around(pages: seq<Page>, first: nat): (r: seq<Page>)
    requires first < |pages|
    ensures |r| == |pages| && forall d | 0 <= d < |r| :: r[d] == pages[Place(first, d, |pages|)]
  {
    pages[first..] + pages[..first]
  }

  function Lead(pages: seq<Page>): (r: nat)
    ensures r <= |pages| && (forall d | 0 <= d < r :: pages[d].ready) && (r < |pages| ==> !pages[r].ready)
  {
    if |pages| > 0 && pages[0].ready then 1 + Lead(pages[1..]) else 0
  }

  // Going round from where reading goes on: the pages that wait, then the one being written, then empty ones.
  ghost predicate Turn(pages: seq<Page>, write: Option<nat>, first: nat)
    requires first < |pages|
  {
    var around := Around(pages, first);
    var r := Lead(around);
    && (forall d | 0 <= d < |around| && around[d].ready :: d < r && around[d].bytes != [])
    && (write.Some? ==> r < |around| && write.value == Place(first, r, |pages|))
  }

  ghost predicate InTurn(s: System) {
    Counted(s) && Turn(s.q.pages, s.q.write, First(s))
  }

  lemma AroundUpdate(pages: seq<Page>, first: nat, d: nat, page: Page)
    requires first < |pages| && d < |pages|
    ensures Place(first, d, |pages|) < |pages|
    ensures Around(pages[Place(first, d, |pages|) := page], first) == Around(pages, first)[d := page]
  {
  }

  lemma LeadIs(pages: seq<Page>, r: nat)
    requires r <= |pages| && (forall d | 0 <= d < r :: pages[d].ready) && (r < |pages| ==> !pages[r].ready)
    ensures Lead(pages) == r
  {
  }

  lemma {:induction false} SeekUp(pages: seq<Page>, ready: bool, from: nat, k: nat, tries: nat)
    requires from + k < |pages| && k < tries && pages[from + k].ready == ready
    requires forall i | from <= i < from + k :: pages[i].ready != ready
    ensures Seek(pages, ready, from, tries) == Some(from + k)
    decreases k
  {
    if k > 0 { SeekUp(pages, ready, from + 1, k - 1, tries - 1); }
  }

  lemma {:induction false} SeekNothing(pages: seq<Page>, ready: bool, from: nat, tries: nat)
    requires from < |pages| && forall i | 0 <= i < |pages| :: pages[i].ready != ready
    ensures Seek(pages, ready, from, tries) == None
    decreases tries
  {
    if tries > 0 { SeekNothing(pages, ready, Next(from, |pages|), tries - 1); }
  }

  // Writing can go on where it should after an event has been dropped.
  predicate Resumes(pages: seq<Page>, first: nat)
    requires 0 < |pages|
  {
    pages[0].ready || pages[|pages| - 1].ready || first == 0
  }

  lemma ReadyAt(pages: seq<Page>, write: Option<nat>, first: nat, i: nat)
    requires first < |pages| && i < |pages| && Turn(pages, write, first)
    ensures pages[i].ready <==> (if first <= i then i - first else i + |pages| - first) < Lead(Around(pages, first))
  {
    var d := if first <= i then i - first else i + |pages| - first;
    assert Around(pages, first)[d] == pages[i];
  }

  // After a drop, the search for a free page starts over at page 0.
  lemma FoundFree(pages: seq<Page>, first: nat)
    requires first < |pages| && Turn(pages, None, first) && Lead(Around(pages, first)) < |pages|
    ensures Seek(pages, false, 0, |pages|) ==
            Some(if pages[0].ready then Place(first, Lead(Around(pages, first)), |pages|) else 0)
  {
    hide Turn, Lead, Around;
    var place := Place(first, Lead(Around(pages, first)), |pages|);
    if pages[0].ready {
      ReadyAt(pages, None, first, 0);
      ReadyAt(pages, None, first, place);
      forall i: nat | i < place ensures pages[i].ready { ReadyAt(pages, None, first, i); }
      SeekUp(pages, false, 0, place, |pages|);
    }
  }

  lemma FoundAgain(pages: seq<Page>, first: nat)
    requires first < |pages| && Turn(pages, None, first) && Lead(Around(pages, first)) < |pages|
    ensures var r := Lead(Around(pages, first));
            Seek(pages, false, 0, |pages|).Some? &&
            (Seek(pages, false, 0, |pages|).value == Place(first, r, |pages|) <==> Resumes(pages, first))
  {
    hide Seek, Turn, Lead, Around;
    FoundFree(pages, first);
    ReadyAt(pages, None, first, 0);
    ReadyAt(pages, None, first, |pages| - 1);
  }

  // The page being written gets more bytes, or is closed.
  lemma ChangesWritten(q: Queue, first: nat, page: Page)
    requires q.Valid() && first < |q.pages| && Turn(q.pages, q.write, first) && q.write.Some?
    requires page.ready ==> page.bytes != []
    ensures Turn(q.pages[q.write.value := page], if page.ready then None else q.write, first)
    ensures var r := Lead(Around(q.pages, first));
            Lead(Around(q.pages[q.write.value := page], first)) == if page.ready then r + 1 else r
  {
    var around := Around(q.pages, first);
    var r := Lead(around);
    AroundUpdate(q.pages, first, r, page);
    LeadIs(around[r := page], if page.ready then r + 1 else r);
  }

  // A page filled up makes way for the one behind it, or for none if that still waits to be read.
  lemma NextIsFree(pages: seq<Page>, first: nat, w: nat)
    requires first < |pages| && w < |pages| && Turn(pages, None, first)
    requires 0 < Lead(Around(pages, first)) && w == Place(first, Lead(Around(pages, first)) - 1, |pages|)
    ensures var r := Lead(Around(pages, first));
            Seek(pages, false, Next(w, |pages|), |pages|) ==
            if r < |pages| then Some(Place(first, r, |pages|)) else None
  {
    var around := Around(pages, first);
    var r := Lead(around);
    if r < |pages| {
      assert Next(w, |pages|) == Place(first, r, |pages|) && !around[r].ready;
    } else {
      forall i | 0 <= i < |pages| ensures pages[i].ready { ReadyAt(pages, None, first, i); }
      SeekNothing(pages, false, Next(w, |pages|), |pages|);
    }
  }

  lemma MoveOnTurn(q: Queue, first: nat, n: nat)
    requires q.Valid() && n <= q.size && first < |q.pages| && Turn(q.pages, q.write, first) && q.write.Some?
    ensures var r := MoveOn(q, n); |r.pages| == |q.pages| && Turn(r.pages, r.write, first)
  {
    var w := q.write.value;
    var page := q.pages[w];
    if q.size - |page.bytes| < n {
      hide Turn, Lead, Around, Seek;
      var closed := page.(ready := true);
      TurnWrite(q.pages, w, first);
      ChangesWritten(q, first, closed);
      NextIsFree(Close(q).pages, first, w);
      TurnOpens(Close(q).pages, first);
    }
  }

  lemma TurnWrite(pages: seq<Page>, w: nat, first: nat)
    requires first < |pages| && Turn(pages, Some(w), first)
    ensures var r := Lead(Around(pages, first)); r < |pages| && w == Place(first, r, |pages|)
  {
  }

  lemma TurnOpens(pages: seq<Page>, first: nat)
    requires first < |pages| && Turn(pages, None, first)
    ensures var r := Lead(Around(pages, first)); r < |pages| ==> Turn(pages, Some(Place(first, r, |pages|)), first)
  {
  }

  lemma NoneIsFree(pages: seq<Page>, first: nat)
    requires first < |pages| && Turn(pages, None, first) && Lead(Around(pages, first)) == |pages|
    ensures Seek(pages, false, 0, |pages|) == None
  {
    forall i | 0 <= i < |pages| ensures pages[i].ready { ReadyAt(pages, None, first, i); }
    SeekNothing(pages, false, 0, |pages|);
  }

  lemma OpenedTurn(q: Queue, first: nat, n: nat)
    requires q.Valid() && n <= q.size && first < |q.pages| && Turn(q.pages, q.write, first)
    requires q.write.None? ==> Resumes(q.pages, first)
    ensures var r := Opened(q, n); |r.pages| == |q.pages| && Turn(r.pages, r.write, first)
  {
    hide Turn, Lead, Around, Seek, Resumes, MoveOn;
    if q.write.Some? {
      MoveOnTurn(q, first, n);
    } else if Lead(Around(q.pages, first)) == |q.pages| {
      NoneIsFree(q.pages, first);
    } else {
      FoundAgain(q.pages, first);
      TurnOpens(q.pages, first);
      MoveOnTurn(q.(write := Allocated(q, -1)), first, n);
    }
  }

  lemma StoredTurn(q: Queue, first: nat, event: seq<Byte>)
    requires q.Valid() && |event| <= q.size && q.total == Room(q.pages, q.size)
    requires first < |q.pages| && Turn(q.pages, q.write, first)
    requires q.write.None? ==> Resumes(q.pages, first)
    ensures var r := Stored(q, event);
            |r.pages| == |q.pages| && Turn(r.pages, r.write, first)
  {
    hide Turn, Lead, Around, Resumes, Opened, Room;
    OpenedCounts(q, |event|);
    OpenedTurn(q, first, |event|);
    var p := Opened(q, |event|);
    if p.write.Some? {
      var page := p.pages[p.write.value];
      ChangesWritten(p, first, page.(bytes := page.bytes + event));
    }
  }

  /** Once an event has been dropped and a page is free again, the next event is put where its turn
      comes exactly when page 0 or the last page still waits to be read, or page 0 is to be read next. */
  lemma ResumesExactly(q: Queue, first: nat, event: seq<Byte>)
    requires q.Valid() && |event| <= q.size && q.total == Room(q.pages, q.size)
    requires first < |q.pages| && Turn(q.pages, None, first) && q.write.None?
    requires exists i :: 0 <= i < |q.pages| && !q.pages[i].ready
    ensures var r := Stored(q, event);
            |r.pages| == |q.pages| && (Turn(r.pages, r.write, first) <==> Resumes(q.pages, first))
  {
    StoredCounts(q, event);
    var r := Stored(q, event);
    if Resumes(q.pages, first) {
      StoredTurn(q, first, event);
    } else {
      var i :| 0 <= i < |q.pages| && !q.pages[i].ready;
      ReadyAt(q.pages, None, first, i);
      FoundAgain(q.pages, first);
      AtWrongPage(q, first, event);
    }
  }

  lemma AtWrongPage(q: Queue, first: nat, event: seq<Byte>)
    requires q.Valid() && |event| <= q.size && q.write.None?
    requires first < |q.pages| && Allocated(q, -1).Some?
    requires Lead(Around(q.pages, first)) < |q.pages|
    requires Allocated(q, -1).value != Place(first, Lead(Around(q.pages, first)), |q.pages|)
    ensures var r := Stored(q, event); |r.pages| == |q.pages| && !Turn(r.pages, r.write, first)
  {
    hide Seek;
    var i := Allocated(q, -1).value;
    var r := Stored(q, event);
    assert q.pages[i] == EMPTY && EMPTY.bytes + event == event;
    assert r.write == Some(i) && r.pages == q.pages[i := Page(false, event)];
    LeadIs(Around(r.pages, first), Lead(Around(q.pages, first)));
  }

  // A step that keeps the pages in turn.
  predicate Smooth(s: System, e: Event)
    requires s.q.Valid()
  {
    && !e.Fail?
    && (e.Write? && s.q.write.None? ==>
          Resumes(s.q.pages, if s.sending.Some? && 0 <= s.q.last then s.q.last else Next(s.q.last, |s.q.pages|)))
  }

  lemma FetchTurn(s: System)
    requires InTurn(s) && s.sending.None?
    ensures Fetched(s.q) == if Lead(Around(s.q.pages, First(s))) == 0 then None else Some(First(s))
  {
    var pages, first := s.q.pages, First(s);
    var around := Around(pages, first);
    if Lead(around) == 0 {
      forall i | 0 <= i < |pages| ensures !pages[i].ready { ReadyAt(pages, s.q.write, first, i); }
      SeekNothing(pages, true, first, |pages|);
    } else {
      assert around[0] == pages[first];
    }
  }

  lemma ReleasedTurn(q: Queue, first: nat)
    requires q.Valid() && first < |q.pages| && q.pages[first].ready && Turn(q.pages, q.write, first)
    ensures var r := Released(q, first).pages; Turn(r, q.write, Next(first, |r|))
  {
    var r := Released(q, first).pages;
    var next := Next(first, |r|);
    var around := Around(q.pages, first);
    assert Around(r, next) == around[1..] + [EMPTY];
    hide Around;
    LeadIs(Around(r, next), Lead(around) - 1);
  }

  lemma StepInTurn(s: System, e: Event)
    requires InTurn(s) && Enabled(s, e) && Smooth(s, e)
    ensures InTurn(Step(s, e))
  {
    hide Turn, Lead, Around, Resumes, Stored, Room, Seek;
    StepCounts(s, e);
    match e
    case Write(event) =>
      StoredCounts(s.q, event);
      StoredTurn(s.q, First(s), event);
    case Fetch => FetchTurn(s);
    case Send(n) => ReleasedTurn(s.q, s.q.last);
    case Fail =>
  }

  // ---------------------------------------------------------------------------------------------
  // In order or not

  // What waits in these pages, in this order.
  function Waits(pages: seq<Page>): seq<Byte> {
    if |pages| == 0 then [] else Waiting(pages[0]) + Waits(pages[1..])
  }

  function Waiting(page: Page): seq<Byte> { if page.ready then page.bytes else [] }

  /** What the reader will find if nothing is written any more, the page being sent as a whole. */
  function Pending(s: System): seq<Byte>
    requires Counted(s)
  {
    Waits(Around(s.q.pages, First(s)))
  }

  function Written(q: Queue): seq<Byte>
    requires q.Valid()
  {
    if q.write.Some? then q.pages[q.write.value].bytes else []
  }

  function Taken(s: System): nat { if s.sending.Some? then s.sending.value else 0 }

  /** What has been accepted is what has been sent, then what the reader will find waiting, then what is in
      the page being written. */
  ghost predicate InOrder(s: System) {
    Counted(s) && Taken(s) <= |Pending(s)| && s.accepted == s.sent + Pending(s)[Taken(s)..] + Written(s.q)
  }

  // How far behind `first` a page is, going round.
  function Distance(first: nat, i: nat, count: nat): (d: nat)
    requires first < count && i < count
    ensures d < count && Place(first, d, count) == i
  {
    if first <= i then i - first else i + count - first
  }

  // What waits in the pages behind the one being written, before reading comes round to where it goes on.
  function Behind(s: System): seq<Byte>
    requires Counted(s) && s.q.write.Some?
  {
    var n := |s.q.pages|;
    Waits(Around(s.q.pages, First(s))[Distance(First(s), s.q.write.value, n) + 1..])
  }

  /** The event does not close the page being written; or nothing waits behind that page that would make a
      difference, because the bytes on both sides may change places. */
  predicate Harmless(s: System, e: Event)
    requires Counted(s)
  {
    e.Write? && s.q.write.Some? && s.q.size - |Written(s.q)| < |e.event| ==>
      Written(s.q) + Behind(s) == Behind(s) + Written(s.q)
  }

  lemma {:induction false} WaitsBoth(a: seq<Page>, b: seq<Page>)
    ensures Waits(a + b) == Waits(a) + Waits(b)
  {
    if |a| == 0 {
      assert a + b == b;
    } else {
      hide Waits, Waiting;
      var page, rest := a[0], a[1..];
      WaitsBoth(rest, b);
      WaitsFirst(page, rest);
      WaitsFirst(page, rest + b);
      assert a == [page] + rest;
      Regroup([page], rest, b);
      Regroup(Waiting(page), Waits(rest), Waits(b));
    }
  }

  lemma Regroup<T>(x: seq<T>, y: seq<T>, z: seq<T>)
    ensures (x + y) + z == x + (y + z)
  {
  }

  lemma WaitsAt(pages: seq<Page>, d: nat, page: Page)
    requires d < |pages|
    ensures Waits(pages[d := page]) == Waits(pages[..d]) + Waiting(page) + Waits(pages[d + 1..])
  {
    var after := pages[d := page];
    assert after == pages[..d] + ([page] + pages[d + 1..]);
    WaitsBoth(pages[..d], [page] + pages[d + 1..]);
    WaitsFirst(page, pages[d + 1..]);
  }

  lemma WaitsFirst(page: Page, pages: seq<Page>)
    ensures Waits([page] + pages) == Waiting(page) + Waits(pages)
  {
    assert ([page] + pages)[1..] == pages;
  }

  // Only what the ready pages hold counts.
  lemma WaitsSame(pages: seq<Page>, first: nat, i: nat, page: Page)
    requires first < |pages| && i < |pages| && Waiting(page) == Waiting(pages[i])
    ensures Waits(Around(pages[i := page], first)) == Waits(Around(pages, first))
  {
    var around, d := Around(pages, first), Distance(first, i, |pages|);
    AroundUpdate(pages, first, d, page);
    WaitsAt(around, d, page);
    WaitsAt(around, d, around[d]);
    assert around[d := around[d]] == around;
  }

  lemma {:induction false} WaitsNothing(pages: seq<Page>)
    requires forall i | 0 <= i < |pages| :: !pages[i].ready
    ensures Waits(pages) == []
  {
    if |pages| > 0 { WaitsNothing(pages[1..]); }
  }

  // When the page being written is closed its bytes come to stand in front of what waits behind it.
  lemma ClosedWaits(s: System) returns (ahead: seq<Byte>)
    requires Counted(s) && s.q.write.Some?
    ensures Taken(s) <= |ahead| && Pending(s) == ahead + Behind(s)
    ensures Waits(Around(Close(s.q).pages, First(s))) == ahead + Written(s.q) + Behind(s)
  {
    hide Waits, Room;
    var w, first := s.q.write.value, First(s);
    var around, d := Around(s.q.pages, first), Distance(first, w, |s.q.pages|);
    var page := s.q.pages[w];
    AroundUpdate(s.q.pages, first, d, page.(ready := true));
    assert around[d] == page && around[0] == s.q.pages[first];
    hide Around;
    WaitsAt(around, d, page.(ready := true));
    WaitsAt(around, d, page);
    assert around[d := page] == around;
    ahead := Waits(around[..d]);
    assert ahead + [] == ahead;
    if s.sending.Some? {
      assert around[..d] == [around[0]] + around[1..d];
      WaitsFirst(around[0], around[1..d]);
    }
  }

  lemma Commutes(sent: seq<Byte>, ahead: seq<Byte>, k: nat, x: seq<Byte>, y: seq<Byte>)
    requires k <= |ahead|
    ensures sent + (ahead + y)[k..] + x == sent + (ahead + x + y)[k..] <==> x + y == y + x
  {
    var front := sent + ahead[k..];
    assert (ahead + y)[k..] == ahead[k..] + y && (ahead + x + y)[k..] == ahead[k..] + (x + y);
    assert sent + (ahead + y)[k..] + x == front + (y + x) && sent + (ahead + x + y)[k..] == front + (x + y);
    assert (front + (y + x))[|front|..] == y + x && (front + (x + y))[|front|..] == x + y;
  }

  ghost predicate Closes(q: Queue, n: nat)
    requires q.Valid()
  {
    q.write.Some? && q.size - |Written(q)| < n
  }

  lemma OpenedPages(q: Queue, n: nat)
    requires q.Valid() && n <= q.size
    ensures var p := Opened(q, n);
            && p.pages == (if Closes(q, n) then Close(q).pages else q.pages)
            && (p.write.Some? ==> p.write.value < |p.pages| && !p.pages[p.write.value].ready &&
                                  p.pages[p.write.value].bytes == if Closes(q, n) then [] else Written(q))
            && (p.write.None? && !Closes(q, n) ==> q.write.None?)
  {
    hide Seek;
  }

  lemma SameEnd(a: seq<Byte>, b: seq<Byte>, end: seq<Byte>)
    ensures a + end == b + end <==> a == b
  {
    if a + end == b + end {
      assert |a| == |b| && (a + end)[..|a|] == a && (b + end)[..|b|] == b;
    }
  }

  /** A write keeps the order if and only if it is harmless. */
  lemma WriteInOrder(s: System, event: seq<Byte>)
    requires InOrder(s) && Enabled(s, Write(event))
    ensures InOrder(Step(s, Write(event))) <==> Harmless(s, Write(event))
  {
    hide Waits, Around, Opened, Room, Seek;
    var q, first, k := s.q, First(s), Taken(s);
    var p := Opened(q, |event|);
    StepCounts(s, Write(event));
    StoredCounts(q, event);
    OpenedPages(q, |event|);
    var added := if p.write.Some? then event else [];
    if p.write.Some? {
      var w := p.write.value;
      WaitsSame(p.pages, first, w, Page(false, p.pages[w].bytes + event));
    }
    if Closes(q, |event|) {
      var ahead := ClosedWaits(s);
      Commutes(s.sent, ahead, k, Written(q), Behind(s));
      SameEnd(s.accepted, s.sent + (ahead + Written(q) + Behind(s))[k..], added);
      assert [] + event == event;
    } else {
      assert s.sent + Pending(s)[k..] + Written(q) + added == s.sent + Pending(s)[k..] + (Written(q) + added);
    }
  }

  // Pages that do not wait, going round to the one that does, do not count.
  lemma FetchedWaits(s: System)
    requires Counted(s) && s.sending.None? && Fetched(s.q).Some?
    ensures Waits(Around(s.q.pages, Fetched(s.q).value)) == Pending(s)
  {
    SkippedWaits(s.q.pages, First(s), |s.q.pages|);
  }

  lemma {:induction false} SkippedWaits(pages: seq<Page>, from: nat, tries: nat)
    requires from < |pages| && Seek(pages, true, from, tries).Some?
    ensures Waits(Around(pages, Seek(pages, true, from, tries).value)) == Waits(Around(pages, from))
    decreases tries
  {
    if !pages[from].ready {
      TurnedWaits(pages, from);
      SkippedWaits(pages, Next(from, |pages|), tries - 1);
    }
  }

  lemma TurnedWaits(pages: seq<Page>, from: nat)
    requires from < |pages| && !pages[from].ready
    ensures Waits(Around(pages, Next(from, |pages|))) == Waits(Around(pages, from))
  {
    var around := Around(pages, from);
    assert Around(pages, Next(from, |pages|)) == around[1..] + [around[0]];
    assert around == [around[0]] + around[1..];
    WaitsBoth(around[1..], [around[0]]);
    WaitsFirst(around[0], around[1..]);
    WaitsFirst(around[0], []);
  }

  lemma ReleasedWaits(pages: seq<Page>, first: nat)
    requires first < |pages| && pages[first].ready
    ensures Waits(Around(pages, first)) ==
              pages[first].bytes + Waits(Around(pages[first := EMPTY], Next(first, |pages|)))
  {
    var around, r := Around(pages, first), pages[first := EMPTY];
    AroundUpdate(pages, first, 0, EMPTY);
    TurnedWaits(r, first);
    assert Around(r, first) == [EMPTY] + around[1..] && around == [around[0]] + around[1..];
    WaitsFirst(EMPTY, around[1..]);
    WaitsFirst(around[0], around[1..]);
  }

  lemma SendingFits(s: System)
    requires Counted(s)
    ensures Taken(s) <= |Pending(s)|
    ensures s.sending.Some? ==> var b := s.q.pages[s.q.last].bytes; |b| <= |Pending(s)| && Pending(s)[..|b|] == b
  {
    if s.sending.Some? { ReleasedWaits(s.q.pages, s.q.last); }
  }

  // What the reader does changes neither what has been sent and waits, nor what is being written.
  lemma ReadKeeps(s: System, e: Event)
    requires Counted(s) && Enabled(s, e) && (e.Fetch? || e.Send?)
    ensures var t := Step(s, e);
            && Counted(t) && Taken(s) <= |Pending(s)| && Taken(t) <= |Pending(t)|
            && t.sent + Pending(t)[Taken(t)..] == s.sent + Pending(s)[Taken(s)..]
            && t.accepted == s.accepted && t.q.write == s.q.write && Written(t.q) == Written(s.q)
  {
    hide Waits, Around, Room, Seek;
    StepCounts(s, e);
    SendingFits(s);
    SendingFits(Step(s, e));
    match e
    case Fetch => if Fetched(s.q).Some? { FetchedWaits(s); }
    case Send(n) =>
      var k, b, pending := s.sending.value, s.q.pages[s.q.last].bytes, Pending(s);
      assert b[k..k + n] == pending[k..k + n];
      assert s.sent + pending[k..] == s.sent + pending[k..k + n] + pending[k + n..];
      if k + n == |b| { ReleasedWaits(s.q.pages, s.q.last); }
  }

  ghost predicate OrderedRun(s: System, events: seq<Event>)
    decreases |events|
  {
    Run(s, events).Some? && InOrder(Run(s, events).value) &&
    (|events| > 0 ==> OrderedRun(s, events[..|events| - 1]))
  }

  ghost predicate HarmlessRun(s: System, events: seq<Event>)
    decreases |events|
  {
    |events| == 0 ||
    var n := |events| - 1;
    HarmlessRun(s, events[..n]) && Run(s, events[..n]).Some? && Counted(Run(s, events[..n]).value) &&
    Harmless(Run(s, events[..n]).value, events[n])
  }

  /** In a run without failed transfers nothing is ever out of order if and only if every write that closes
      a page does no harm. */
  lemma {:induction false} OrderedExactly(count: nat, size: nat, events: seq<Event>)
    requires 0 < count && Run(Start(count, size), events).Some? && Fail !in events
    ensures OrderedRun(Start(count, size), events) <==> HarmlessRun(Start(count, size), events)
    decreases |events|
  {
    var start, n := Start(count, size), |events| - 1;
    if n < 0 {
      EmptyRoom(count, size);
      WaitsNothing(Around(start.q.pages, 0));
    } else {
      hide InOrder, Harmless, Counted, Step;
      OrderedExactly(count, size, events[..n]);
      RunCounts(count, size, events[..n]);
      var s, e := Run(start, events[..n]).value, events[n];
      if OrderedRun(start, events[..n]) { StepInOrder(s, e); }
    }
  }

  lemma StepInOrder(s: System, e: Event)
    requires InOrder(s) && Enabled(s, e) && !e.Fail?
    ensures InOrder(Step(s, e)) <==> Harmless(s, e)
  {
    match e
    case Write(event) => WriteInOrder(s, event);
    case _ =>
      hide Waits, Around, Room, Seek, Step;
      ReadKeeps(s, e);
  }

  /** Pages in turn leave nothing behind the page being written. */
  lemma TurnIsHarmless(s: System, e: Event)
    requires InTurn(s)
    ensures Harmless(s, e)
  {
    if e.Write? && s.q.write.Some? {
      var around := Around(s.q.pages, First(s));
      var d := Distance(First(s), s.q.write.value, |s.q.pages|);
      WaitsNothing(around[d + 1..]);
    }
  }

  /** What waits is what the reader will send when it goes on alone; so the host has received what was
      accepted, up to the page being written, exactly if the order has been kept. */
  lemma Drained(s: System) returns (events: seq<Event>)
    requires Counted(s)
    ensures forall e <- events :: e.Fetch? || e.Send?
    ensures Run(s, events).Some? && Taken(s) <= |Pending(s)|
    ensures var t := Run(s, events).value;
            && Counted(t) && t.sent == s.sent + Pending(s)[Taken(s)..]
            && t.accepted == s.accepted && Written(t.q) == Written(s.q)
            && (t.accepted == t.sent + Written(t.q) <==> InOrder(s))
  {
    hide Waits, Around, Room, Seek, Step, Enabled;
    SendingFits(s);
    events := [];
    var t := s;
    RunNothing(s);
    while t.sending.Some? || Fetched(t.q).Some?
      invariant Run(s, events) == Some(t) && Counted(t) && Taken(t) <= |Pending(t)|
      invariant forall e <- events :: e.Fetch? || e.Send?
      invariant t.sent + Pending(t)[Taken(t)..] == s.sent + Pending(s)[Taken(s)..]
      invariant t.accepted == s.accepted && Written(t.q) == Written(s.q)
      decreases Ready(t.q.pages), t.sending.None?
    {
      var e := if t.sending.None? then Fetch else Send(|t.q.pages[t.q.last].bytes| - t.sending.value);
      ReaderStep(t, e);
      ReadKeeps(t, e);
      OneMore(s, events, e);
      events, t := events + [e], Step(t, e);
    }
    NothingWaits(t);
    assert s.sent + Pending(s)[Taken(s)..] + Written(s.q) == t.sent + Written(t.q);
  }

  lemma RunNothing(s: System)
    ensures Run(s, []) == Some(s)
  {
  }

  function Ready(pages: seq<Page>): nat {
    if |pages| == 0 then 0 else (if pages[0].ready then 1 else 0) + Ready(pages[1..])
  }

  lemma {:induction false} ReadyLess(pages: seq<Page>, i: nat)
    requires i < |pages| && pages[i].ready
    ensures Ready(pages[i := EMPTY]) < Ready(pages)
  {
    if i == 0 {
      assert pages[i := EMPTY][1..] == pages[1..];
    } else {
      ReadyLess(pages[1..], i - 1);
      assert pages[i := EMPTY][1..] == pages[1..][i - 1 := EMPTY];
    }
  }

  lemma ReaderStep(s: System, e: Event)
    requires Counted(s) && if s.sending.None? then Fetched(s.q).Some? && e == Fetch
                           else e == Send(|s.q.pages[s.q.last].bytes| - s.sending.value)
    ensures Enabled(s, e)
    ensures var t := Step(s, e);
            if s.sending.None? then t.sending.Some? && t.q.pages == s.q.pages else Ready(t.q.pages) < Ready(s.q.pages)
  {
    if s.sending.Some? { ReadyLess(s.q.pages, s.q.last); }
  }

  lemma NothingWaits(s: System)
    requires Counted(s) && s.sending.None? && Fetched(s.q).None?
    ensures Pending(s) == []
  {
    NoneFound(s.q.pages, First(s), |s.q.pages|);
    WaitsNothing(Around(s.q.pages, First(s)));
  }

  lemma {:induction false} NoneFound(pages: seq<Page>, from: nat, tries: nat)
    requires from < |pages| && tries <= |pages| && Seek(pages, true, from, tries) == None
    ensures forall d | 0 <= d < tries :: !pages[Place(from, d, |pages|)].ready
    decreases tries
  {
    if tries > 0 {
      NoneFound(pages, Next(from, |pages|), tries - 1);
      forall d | 0 <= d < tries ensures !pages[Place(from, d, |pages|)].ready {
        if d > 0 { assert Place(from, d, |pages|) == Place(Next(from, |pages|), d - 1, |pages|); }
      }
    }
  }

  // ---------------------------------------------------------------------------------------------
  // Where an event goes

  // Page `v` is the first one that is not ready, going round from `from`.
  ghost predicate FirstFree(pages: seq<Page>, from: nat, v: nat) {
    from < |pages| && exists d | 0 <= d < |pages| ::
      && v == Place(from, d, |pages|) < |pages| && !pages[v].ready
      && forall e | 0 <= e < d :: pages[Place(from, e, |pages|)].ready
  }

  lemma {:induction false} SeekFirst(pages: seq<Page>, from: nat, tries: nat)
    requires from < |pages| && tries <= |pages|
    ensures match Seek(pages, false, from, tries)
      case None => forall d | 0 <= d < tries :: pages[Place(from, d, |pages|)].ready
      case Some(v) => exists d | 0 <= d < tries ::
        v == Place(from, d, |pages|) && !pages[v].ready && forall e | 0 <= e < d :: pages[Place(from, e, |pages|)].ready
    decreases tries
  {
    var n := |pages|;
    if tries > 0 && pages[from].ready {
      SeekFirst(pages, Next(from, n), tries - 1);
      assert forall d | 0 < d < n :: Place(from, d, n) == Place(Next(from, n), d - 1, n);
      match Seek(pages, false, from, tries) {
        case None =>
        case Some(v) =>
          var d :| 0 <= d < tries - 1 && v == Place(Next(from, n), d, n) &&
                   forall e | 0 <= e < d :: pages[Place(Next(from, n), e, n)].ready;
          assert v == Place(from, d + 1, n);
      }
    } else if tries > 0 {
      assert Place(from, 0, n) == from;
    }
  }

  // The pages once the one being written, if there is one, has been given to the reader.
  function Closed(q: Queue): seq<Page>
    requires q.Valid()
  {
    if q.write.Some? then q.pages[q.write.value := q.pages[q.write.value].(ready := true)] else q.pages
  }

  /** An event that fits behind what the page being written holds goes there. Otherwise that page, if there is
      one, becomes ready, and the event goes to the first page going round that is not, from behind that page or
      from page 0 on; only if all pages are ready it is dropped. */
  lemma StoredMeaning(q: Queue, event: seq<Byte>)
    requires q.Valid() && |event| <= q.size
    ensures var r := Stored(q, event);
            if q.write.Some? && |q.pages[q.write.value].bytes| + |event| <= q.size then
              var w := q.write.value;
              r == q.(pages := q.pages[w := Page(false, q.pages[w].bytes + event)], total := q.total - |event|)
            else
              var closed, from := Closed(q), if q.write.Some? then Next(q.write.value, |q.pages|) else 0;
              if forall i | 0 <= i < |closed| :: closed[i].ready then
                r.pages == closed && r.write == None && r.dropped == q.dropped + 1
              else
                && r.dropped == q.dropped && r.write.Some? && FirstFree(closed, from, r.write.value)
                && r.pages == closed[r.write.value := Page(false, event)]
  {
    hide Seek;
    if !(q.write.Some? && |q.pages[q.write.value].bytes| + |event| <= q.size) {
      var closed, from := Closed(q), if q.write.Some? then Next(q.write.value, |q.pages|) else 0;
      SeekFirst(closed, from, |closed|);
      AllPlaces(closed, from);
      assert [] + event == event;
      var v := Seek(closed, false, from, |closed|);
      if v.Some? { assert closed[v.value].bytes == []; }
    }
  }

  // Going round once leads past every page.
  lemma AllPlaces(pages: seq<Page>, from: nat)
    requires from < |pages|
    ensures (forall d | 0 <= d < |pages| :: pages[Place(from, d, |pages|)].ready) <==>
              forall i | 0 <= i < |pages| :: pages[i].ready
  {
    if forall d | 0 <= d < |pages| :: pages[Place(from, d, |pages|)].ready {
      forall i | 0 <= i < |pages| ensures pages[i].ready {
        assert pages[Place(from, Distance(from, i, |pages|), |pages|)].ready;
      }
    }
  }

  ghost predicate SmoothRun(s: System, events: seq<Event>)
    decreases |events|
  {
    |events| == 0 ||
    var n := |events| - 1;
    SmoothRun(s, events[..n]) &&
    (Run(s, events[..n]).Some? && Run(s, events[..n]).value.q.Valid() ==> Smooth(Run(s, events[..n]).value, events[n]))
  }

  lemma {:induction false} SmoothIsHarmless(count: nat, size: nat, events: seq<Event>)
    requires 0 < count && Run(Start(count, size), events).Some? && SmoothRun(Start(count, size), events)
    ensures InTurn(Run(Start(count, size), events).value) && Fail !in events
    ensures HarmlessRun(Start(count, size), events)
    decreases |events|
  {
    hide InTurn, Smooth, Step, Enabled, Harmless, Counted, Start, Queue.Valid;
    var start, n := Start(count, size), |events| - 1;
    if n < 0 {
      StartInTurn(count, size);
    } else {
      SmoothIsHarmless(count, size, events[..n]);
      RunCounts(count, size, events[..n]);
      var s, e := Run(start, events[..n]).value, events[n];
      CountedIsValid(s);
      SmoothIsNoFail(s, e);
      StepInTurn(s, e);
      TurnIsHarmless(s, e);
      assert events == events[..n] + [e];
    }
  }

  lemma StartInTurn(count: nat, size: nat)
    requires 0 < count
    ensures InTurn(Start(count, size))
  {
    EmptyRoom(count, size);
  }

  lemma CountedIsValid(s: System)
    requires Counted(s)
    ensures s.q.Valid()
  {
  }

  lemma SmoothIsNoFail(s: System, e: Event)
    requires s.q.Valid() && Smooth(s, e)
    ensures e != Fail
  {
  }

  /** In every run without failed transfers that after each dropped event goes on only where `Resumes`
      lets it, the pages stay in turn, and so nothing ever gets out of order. */
  lemma DeliveredInOrder(count: nat, size: nat, events: seq<Event>)
    requires 0 < count && Run(Start(count, size), events).Some? && SmoothRun(Start(count, size), events)
    ensures InTurn(Run(Start(count, size), events).value)
    ensures OrderedRun(Start(count, size), events)
  {
    SmoothIsHarmless(count, size, events);
    OrderedExactly(count, size, events);
  }

  lemma StepDrops(s: System, e: Event)
    requires Counted(s) && Enabled(s, e)
    ensures Step(s, e).q.dropped >= s.q.dropped
    ensures e.Write? && Step(s, e).q.dropped == s.q.dropped ==> Step(s, e).q.write.Some?
    ensures !e.Write? ==> Step(s, e).q.write == s.q.write
  {
  }

  /** Nothing dropped and no failed transfer is enough. */
  lemma {:induction false} NothingDropped(count: nat, size: nat, events: seq<Event>)
    requires 0 < count && Run(Start(count, size), events).Some? && Fail !in events
    requires Run(Start(count, size), events).value.q.dropped == 0
    ensures SmoothRun(Start(count, size), events) && OrderedRun(Start(count, size), events)
    ensures var s := Run(Start(count, size), events).value;
            s.q.write.None? ==> s == Start(count, size)
    decreases |events|
  {
    var start, n := Start(count, size), |events| - 1;
    if n < 0 {
      DeliveredInOrder(count, size, events);
    } else {
      hide Room, Stored, Turn, InOrder, OrderedRun;
      var s := Run(start, events[..n]).value;
      RunCounts(count, size, events[..n]);
      StepDrops(s, events[n]);
      NothingDropped(count, size, events[..n]);
      if s.q.write.None? && events[n].Fetch? { SeekNothing(s.q.pages, true, 0, count); }
      DeliveredInOrder(count, size, events);
    }
  }

  lemma OneMore(s: System, events: seq<Event>, e: Event)
    requires Run(s, events).Some? && Enabled(Run(s, events).value, e)
    ensures Run(s, events + [e]) == Some(Step(Run(s, events).value, e))
  {
    assert (events + [e])[..|events|] == events;
  }

  // Two pages of one byte each.
  function Two(a: Page, b: Page, write: Option<nat>, last: int, total: int, dropped: nat, sending: Option<nat>,
               accepted: seq<Byte>, sent: seq<Byte>): System
  {
    System(Queue(1, [a, b], write, last, total, dropped), sending, accepted, sent)
  }

  lemma TwoPages(a: Page, b: Page, c: Page)
    ensures [a, b][0 := c] == [c, b] && [a, b][1 := c] == [a, c]
    ensures Seek([a, b], c.ready, 0, 2) == if a.ready == c.ready then Some(0) else if b.ready == c.ready then Some(1)
              else None
    ensures Seek([a, b], c.ready, 1, 2) == if b.ready == c.ready then Some(1) else if a.ready == c.ready then Some(0)
              else None
  {
    assert Next(0, 2) == 1 && Next(1, 2) == 0;
    assert Seek([a, b], c.ready, 0, 0) == None && Seek([a, b], c.ready, 1, 0) == None;
    assert Seek([a, b], c.ready, 0, 1) == if a.ready == c.ready then Some(0) else None;
    assert Seek([a, b], c.ready, 1, 1) == if b.ready == c.ready then Some(1) else None;
  }

  lemma WriteFirst(x: Byte, last: int, total: int, dropped: nat, accepted: seq<Byte>, sent: seq<Byte>)
    requires -1 <= last < 2
    ensures var s := Two(EMPTY, EMPTY, None, last, total, dropped, None, accepted, sent);
            Enabled(s, Write([x])) &&
            Step(s, Write([x])) ==
            Two(Page(false, [x]), EMPTY, Some(0), last, total - 1, dropped, None, accepted + [x], sent)
  {
    hide Seek;
    TwoPages(EMPTY, EMPTY, Page(false, [x]));
    assert EMPTY.bytes + [x] == [x];
  }

  // The page written is full: it waits, and the other one is taken, or the event is dropped.
  lemma WriteOn(w: nat, a: Page, b: Page, x: Byte, last: int, total: int, dropped: nat, accepted: seq<Byte>,
      sent: seq<Byte>)
    requires w < 2 && -1 <= last < 2 && |a.bytes| <= 1 && |b.bytes| <= 1
    requires var p, o := if w == 0 then a else b, if w == 0 then b else a;
             !p.ready && |p.bytes| == 1 && (o.ready || o == EMPTY)
    ensures var s := Two(a, b, Some(w), last, total, dropped, None, accepted, sent);
            Enabled(s, Write([x])) &&
            Step(s, Write([x])) ==
            var full := (if w == 0 then a else b).(ready := true);
            if w == 0 then
              if b.ready then Two(full, b, None, last, total, dropped + 1, None, accepted, sent)
              else Two(full, Page(false, [x]), Some(1), last, total - 1, dropped, None, accepted + [x], sent)
            else
              if a.ready then Two(a, full, None, last, total, dropped + 1, None, accepted, sent)
              else Two(Page(false, [x]), full, Some(0), last, total - 1, dropped, None, accepted + [x], sent)
  {
    hide Seek;
    var full := (if w == 0 then a else b).(ready := true);
    TwoPages(a, b, full);
    assert EMPTY.bytes + [x] == [x] && accepted + [] == accepted;
    if w == 0 { TwoPages(full, b, Page(false, [x])); } else { TwoPages(a, full, Page(false, [x])); }
  }

  lemma Transfer(a: Page, b: Page, write: Option<nat>, last: int, total: int, dropped: nat, accepted: seq<Byte>,
      sent: seq<Byte>,
                 i: nat, events: seq<Event>) returns (more: seq<Event>)
    requires -1 <= last < 2 && |a.bytes| <= 1 && |b.bytes| <= 1 && i < 2 && i == Next(last, 2)
    requires var p := if i == 0 then a else b; p.ready && |p.bytes| == 1
    requires Two(a, b, write, last, total, dropped, None, accepted, sent).q.Valid() && Fail !in events
    requires Run(Start(2, 1), events) == Some(Two(a, b, write, last, total, dropped, None, accepted, sent))
    ensures Fail !in more
    ensures Run(Start(2, 1), more) ==
            Some(if i == 0 then Two(EMPTY, b, write, 0, total + 1, dropped, None, accepted, sent + a.bytes)
                 else Two(a, EMPTY, write, 1, total + 1, dropped, None, accepted, sent + b.bytes))
  {
    hide Run;
    TwoPages(a, b, EMPTY);
    TwoPages(a, b, EMPTY.(ready := true));
    var p := if i == 0 then a else b;
    var taken := Two(a, b, write, i, total, dropped, Some(0), accepted, sent);
    OneMore(Start(2, 1), events, Fetch);
    OneMore(Start(2, 1), events + [Fetch], Send(1));
    more := events + [Fetch] + [Send(1)];
    assert p.bytes[0..1] == p.bytes;
  }

  lemma OneAndTwo() returns (events: seq<Event>)
    ensures Fail !in events
    ensures Run(Start(2, 1), events) == Some(Two(EMPTY, Page(false, [2]), Some(1), 0, 1, 0, None, [1, 2], [1]))
  {
    hide Run, Step, Enabled;
    assert [] + [1] == [1] && [1] + [2] == [1, 2];
    events := Empties();
    WriteFirst(1, -1, 2, 0, [], []);
    events := Reach(events, Write([1]));
    WriteOn(0, Page(false, [1]), EMPTY, 2, -1, 1, 0, [1], []);
    events := Reach(events, Write([2]));
    assert Run(Start(2, 1), events) ==
        Some(Two(Page(true, [1]), Page(false, [2]), Some(1), -1, 0, 0, None, [1] + [2], []));
    events := Transfer(Page(true, [1]), Page(false, [2]), Some(1), -1, 0, 0, [1, 2], [], 0, events);
  }

  // Both pages are filled, page 0 last; an event is dropped; both are transferred.
  lemma UpToDrop() returns (events: seq<Event>)
    ensures Fail !in events
    ensures Run(Start(2, 1), events) == Some(Two(EMPTY, EMPTY, None, 0, 2, 1, None, [1, 2, 3], [1, 2, 3]))
  {
    hide Run, Step, Enabled;
    assert [1, 2] + [3] == [1, 2, 3] && [1] + [2] == [1, 2];
    events := OneAndTwo();
    WriteOn(1, EMPTY, Page(false, [2]), 3, 0, 1, 0, [1, 2], [1]);
    events := Reach(events, Write([3]));
    WriteOn(0, Page(false, [3]), Page(true, [2]), 4, 0, 0, 0, [1, 2, 3], [1]);
    events := Reach(events, Write([4]));
    events := Transfer(Page(true, [3]), Page(true, [2]), None, 0, 0, 1, [1, 2, 3], [1], 1, events);
    events := Transfer(Page(true, [3]), EMPTY, None, 1, 1, 1, [1, 2, 3], [1, 2], 0, events);
  }

  lemma Empties() returns (events: seq<Event>)
    ensures Fail !in events && Run(Start(2, 1), events) == Some(Two(EMPTY, EMPTY, None, -1, 2, 0, None, [], []))
  {
    events := [];
    assert Empty(2, 1).pages == [EMPTY, EMPTY];
  }

  lemma Reach(events: seq<Event>, e: Event) returns (more: seq<Event>)
    requires Run(Start(2, 1), events).Some? && Enabled(Run(Start(2, 1), events).value, e) && Fail !in events && !e.Fail?
    ensures Run(Start(2, 1), more) == Some(Step(Run(Start(2, 1), events).value, e)) && Fail !in more
  {
    more := events + [e];
    OneMore(Start(2, 1), events, e);
  }

  /** With events dropped, an event can arrive before one that was accepted earlier. */
  lemma DroppingDisorders() returns (events: seq<Event>)
    ensures Fail !in events && Run(Start(2, 1), events).Some?
    ensures var s := Run(Start(2, 1), events).value; s.accepted == [1, 2, 3, 5, 6] && s.sent == [1, 2, 3, 6]
  {
    hide Run, Step, Enabled;
    assert [1, 2, 3] + [5] == [1, 2, 3, 5] && [1, 2, 3, 5] + [6] == [1, 2, 3, 5, 6] && [1, 2, 3] + [6] == [1, 2, 3, 6];
    events := UpToDrop();
    WriteFirst(5, 0, 2, 1, [1, 2, 3], [1, 2, 3]);
    events := Reach(events, Write([5]));
    WriteOn(0, Page(false, [5]), EMPTY, 6, 0, 1, 1, [1, 2, 3, 5], [1, 2, 3]);
    events := Reach(events, Write([6]));
    WriteOn(1, Page(true, [5]), Page(false, [6]), 7, 0, 0, 1, [1, 2, 3, 5, 6], [1, 2, 3]);
    events := Reach(events, Write([7]));
    events := Transfer(Page(true, [5]), Page(true, [6]), None, 0, 0, 2, [1, 2, 3, 5, 6], [1, 2, 3], 1, events);
  }

  // ---------------------------------------------------------------------------------------------
  // The buffer as it is held in memory

  datatype Status = FREE | READ
  datatype PageInfo = PageInfo(status: Status, bytesRemaining: nat, writePointer: nat)

  function Base(i: nat, size: nat): nat { i * size }

  lemma {:induction false} BaseApart(i: nat, j: nat, size: nat)
    requires i < j
    ensures Base(i, size) + size <= Base(j, size)
    decreases j
  {
    assert Base(j, size) == Base(j - 1, size) + size;
    if i < j - 1 { BaseApart(i, j - 1, size); }
  }

  ghost predicate Fits(info: seq<PageInfo>, data: seq<Byte>, size: nat) {
    forall i | 0 <= i < |info| ::
      info[i].bytesRemaining <= size && Base(i, size) + size <= |data| &&
      info[i].writePointer == Base(i, size) + (size - info[i].bytesRemaining)
  }

  ghost function PageOf(info: PageInfo, i: nat, data: seq<Byte>, size: nat): Page
    requires Base(i, size) <= info.writePointer <= |data|
  {
    Page(info.status == READ, data[Base(i, size)..info.writePointer])
  }

  ghost function Pages(info: seq<PageInfo>, data: seq<Byte>, size: nat): (r: seq<Page>)
    requires Fits(info, data, size)
    ensures |r| == |info| && forall i | 0 <= i < |r| :: r[i] == PageOf(info[i], i, data, size)
  {
    seq(|info|, i requires 0 <= i < |info| => PageOf(info[i], i, data, size))
  }

  lemma InfoUpdate(info: seq<PageInfo>, data: seq<Byte>, size: nat, i: nat, page: PageInfo)
    requires Fits(info, data, size) && i < |info| && page.bytesRemaining <= size
    requires page.writePointer == Base(i, size) + (size - page.bytesRemaining)
    ensures Fits(info[i := page], data, size)
    ensures Pages(info[i := page], data, size) == Pages(info, data, size)[i := PageOf(page, i, data, size)]
  {
  }

  lemma SliceKept(data: seq<Byte>, after: seq<Byte>, at: nat, event: seq<Byte>, lo: nat, hi: nat)
    requires Wrote(data, after, at, event) && lo <= hi <= |data| && (hi <= at || at + |event| <= lo)
    ensures after[lo..hi] == data[lo..hi]
  {
    var n := at + |event|;
    if hi <= at {
      assert forall k | lo <= k < hi :: after[k] == after[..n][k] && data[k] == (data[..at] + event)[k];
    } else {
      assert after[lo..hi] == after[n..][lo - n..hi - n] && data[lo..hi] == data[n..][lo - n..hi - n];
    }
  }

  lemma SliceEnds(data: seq<Byte>, after: seq<Byte>, at: nat, event: seq<Byte>, lo: nat)
    requires Wrote(data, after, at, event) && lo <= at
    ensures after[lo..at + |event|] == data[lo..at] + event
  {
    assert after[lo..at + |event|] == after[..at + |event|][lo..];
  }

  // An event put at the end of a page changes that page alone.
  lemma EventPut(info: seq<PageInfo>, data: seq<Byte>, after: seq<Byte>, size: nat, w: nat, at: nat, event: seq<Byte>)
    requires Fits(info, data, size) && w < |info| && Wrote(data, after, at, event)
    requires Base(w, size) <= at && at + |event| == info[w].writePointer
    ensures Fits(info, after, size)
    ensures Pages(info, after, size) ==
            Pages(info, data, size)[w := Page(info[w].status == READ, data[Base(w, size)..at] + event)]
  {
    hide Base, Wrote;
    WroteLength(data, after, at, event);
    forall i | 0 <= i < |info| && i != w
      ensures PageOf(info[i], i, after, size) == PageOf(info[i], i, data, size)
    {
      if i < w { BaseApart(i, w, size); } else { BaseApart(w, i, size); }
      SliceKept(data, after, at, event, Base(i, size), info[i].writePointer);
    }
    SliceEnds(data, after, at, event, Base(w, size));
  }

  lemma WroteLength(data: seq<Byte>, after: seq<Byte>, at: nat, event: seq<Byte>)
    requires Wrote(data, after, at, event)
    ensures |after| == |data|
  {
  }

  lemma NextIs(i: int, count: nat)
    requires -1 <= i < count && 0 < count
    ensures (i + 1) % count == Next(i, count)
  {
  }

  /** What the streaming interface has received; `answers` says how each call to it will end: with so many
      bytes taken, or with an error. It fails when no answer is left. */
  class StreamPort {
    var received: seq<Byte>
    var answers: seq<Option<nat>>

    constructor (answers: seq<Option<nat>>)
      ensures received == [] && this.answers == answers
    {
      received := [];
      this.answers := answers;
    }

    method WriteData(data: array<Byte>, from: nat, size: nat) returns (ok: bool, taken: nat)
      requires from + size <= data.Length
      modifies this
      ensures taken <= size && received == old(received) + data[from..from + taken]
      ensures ok ==> |answers| < |old(answers)|
      ensures !ok ==> taken == 0
    {
      if |answers| == 0 { return false, 0; }
      var answer := answers[0];
      answers := answers[1..];
      if answer.None? { return false, 0; }
      ok, taken := true, if answer.value <= size then answer.value else size;
      received := received + data[from..from + taken];
    }
  }

  function Min(a: int, b: int): int { if a < b then a else b }

  class EventBuffer {
    const size: nat
    const eventBuffer: array<Byte>
    const pageInfo: array<PageInfo>
    var currentWritePage: int
    var lastPage: int
    var totalBytesRemaining: int
    var lowWaterMark: int         // TotalBytesRemaining_LowWaterMark
    var droppedEventCounter: nat

    ghost predicate Shape()
      reads this, pageInfo, eventBuffer
    {
      && 0 < pageInfo.Length <= 128 && size <= 65535
      && -1 <= currentWritePage < pageInfo.Length
      && Fits(pageInfo[..], eventBuffer[..], size)
    }

    ghost function State(): Queue
      reads this, pageInfo, eventBuffer
      requires Shape()
    {
      Queue(size, Pages(pageInfo[..], eventBuffer[..], size),
                             if currentWritePage == -1 then None else Some(currentWritePage),
                             lastPage, totalBytesRemaining, droppedEventCounter)
    }

    ghost predicate Valid()
      reads this, pageInfo, eventBuffer
    {
      && Shape() && State().Valid() && State().total == Room(State().pages, size)
      && lowWaterMark <= totalBytesRemaining
    }

    constructor (pageCount: nat, size: nat, buffer: array<Byte>)
      requires 0 < pageCount <= 128 && size <= 65535 && pageCount * size <= buffer.Length
      ensures Valid() && State() == Empty(pageCount, size) && lowWaterMark == pageCount * size
      ensures fresh(pageInfo) && eventBuffer == buffer
    {
      this.size, eventBuffer := size, buffer;
      pageInfo := new PageInfo[pageCount](_ => PageInfo(FREE, 0, 0));
      currentWritePage, lastPage := -1, -1;
      totalBytesRemaining, lowWaterMark := pageCount * size, pageCount * size;
      droppedEventCounter := 0;
      new;
      Init();
      EmptyRoom(pageCount, size);
      assert State() == Empty(pageCount, size);
    }

    /** prvPagedEventBufferInit */
    method Init()
      requires pageInfo.Length * size <= eventBuffer.Length && 0 < pageInfo.Length <= 128 && size <= 65535
      requires -1 <= currentWritePage < pageInfo.Length
      modifies pageInfo
      ensures Shape() && State().pages == Empty(pageInfo.Length, size).pages
    {
      for i := 0 to pageInfo.Length
        invariant forall k | 0 <= k < i :: pageInfo[k] == PageInfo(FREE, size, Base(k, size))
      {
        pageInfo[i] := PageInfo(FREE, size, i * size);
      }
      forall i | 0 <= i < pageInfo.Length ensures Base(i, size) + size <= eventBuffer.Length {
        BaseApart(i, pageInfo.Length, size);
      }
      assert forall k | 0 <= k < pageInfo.Length :: State().pages[k] == EMPTY;
    }

    /** prvAllocateBufferPage */
    method AllocateBufferPage(prevPage: int) returns (index: int)
      requires Shape() && -1 <= prevPage < pageInfo.Length
      ensures match Allocated(State(), prevPage) case None => index == -1 case Some(i) => index == i
    {
      hide Base, Fits, Pages, Seek;
      var pageCount := pageInfo.Length;
      ghost var pages, start := State().pages, Next(prevPage, pageCount);
      assert forall i | 0 <= i < pageCount :: pages[i].ready <==> pageInfo[i].status == READ by { SameStatus(); }
      NextIs(prevPage, pageCount);
      var count := 0;
      index := (prevPage + 1) % pageCount;
      while pageInfo[index].status != FREE && count < pageCount
        invariant 0 <= index < pageCount && 0 <= count <= pageCount && index == Place(start, count, pageCount)
        invariant count > 0 ==> pageInfo[start].status != FREE
        invariant Seek(pages, false, start, pageCount) == Seek(pages, false, index, pageCount - count)
        decreases pageCount - count
      {
        SeekStep(pages, false, index, pageCount - count);
        NextIs(index, pageCount);
        count := count + 1;
        index := (index + 1) % pageCount;
      }
      SeekStep(pages, false, index, pageCount - count);
      if pageInfo[index].status != FREE { index := -1; }
    }

    lemma SameStatus()
      requires Shape()
      ensures forall i | 0 <= i < pageInfo.Length :: State().pages[i].ready <==> pageInfo[i].status == READ
    {
    }

    /** prvPageReadComplete */
    method PageReadComplete(pageIndex: nat)
      requires Shape() && pageIndex < pageInfo.Length
      modifies pageInfo, this`totalBytesRemaining
      ensures Shape() && State() == Released(old(State()), pageIndex)
    {
      ghost var info := pageInfo[..];
      var page := PageInfo(FREE, size, pageIndex * size);
      assert page.writePointer == Base(pageIndex, size);
      InfoUpdate(info, eventBuffer[..], size, pageIndex, page);
      pageInfo[pageIndex] := page;
      assert pageInfo[..] == info[pageIndex := page];
      totalBytesRemaining := totalBytesRemaining + size;
    }

    // The loop of prvGetBufferPage.
    method FindReadPage() returns (index: int)
      requires Valid()
      ensures match Fetched(State()) case None => index == -1 case Some(i) => index == i
    {
      hide Base, Fits, Pages, Seek, Room;
      var pageCount := pageInfo.Length;
      ghost var pages, start := State().pages, Next(lastPage, pageCount);
      assert forall i | 0 <= i < pageCount :: pages[i].ready <==> pageInfo[i].status == READ by { SameStatus(); }
      NextIs(lastPage, pageCount);
      var count := 0;
      index := (lastPage + 1) % pageCount;
      while pageInfo[index].status != READ && count < pageCount
        invariant 0 <= index < pageCount && 0 <= count <= pageCount && index == Place(start, count, pageCount)
        invariant count > 0 ==> pageInfo[start].status != READ
        invariant Seek(pages, true, start, pageCount) == Seek(pages, true, index, pageCount - count)
        decreases pageCount - count
      {
        SeekStep(pages, true, index, pageCount - count);
        NextIs(index, pageCount);
        count := count + 1;
        index := (index + 1) % pageCount;
      }
      SeekStep(pages, true, index, pageCount - count);
      if pageInfo[index].status != READ { index := -1; }
    }

    /** prvGetBufferPage */
    method GetBufferPage() returns (index: int, bytesUsed: nat)
      requires Valid()
      modifies this`lastPage
      ensures Valid()
      ensures match Fetched(old(State()))
              case None => index == -1 && State() == old(State())
              case Some(i) => index == i && State() == old(State()).(last := i) &&
                              bytesUsed == |State().pages[i].bytes|
    {
      hide Base, Fits, Pages, Seek, Room;
      index := FindReadPage();
      bytesUsed := 0;
      if index != -1 {
        UsedBytes(index);
        bytesUsed := size - pageInfo[index].bytesRemaining;
        lastPage := index;
      }
    }

    lemma UsedBytes(i: nat)
      requires Shape() && i < pageInfo.Length
      ensures pageInfo[i].bytesRemaining <= size && |State().pages[i].bytes| == size - pageInfo[i].bytesRemaining
      ensures Base(i, size) + size <= eventBuffer.Length
      ensures State().pages[i].bytes == eventBuffer[Base(i, size)..pageInfo[i].writePointer]
      ensures pageInfo[i].writePointer == Base(i, size) + (size - pageInfo[i].bytesRemaining)
    {
    }

    // The loop of prvPagedEventBufferTransfer.
    method SendPage(port: StreamPort, page: nat, bytesToTransfer: nat) returns (ok: bool)
      requires Shape() && page < pageInfo.Length && bytesToTransfer == |State().pages[page].bytes|
      modifies port
      ensures var bytes := State().pages[page].bytes;
              if ok then port.received == old(port.received) + bytes
              else exists k | 0 <= k <= |bytes| :: port.received == old(port.received) + bytes[..k]
    {
      hide Base, Fits, Pages;
      ghost var bytes := State().pages[page].bytes;
      UsedBytes(page);
      PageStarts(page);
      var transferred := 0;
      while true
        invariant transferred <= bytesToTransfer
        invariant port.received == old(port.received) + bytes[..transferred]
        decreases |port.answers|
      {
        var more, now := port.WriteData(eventBuffer, page * size + transferred, bytesToTransfer - transferred);
        if !more { return false; }
        assert bytes[..transferred] + eventBuffer[page * size + transferred..][..now] == bytes[..transferred + now];
        transferred := transferred + now;
        if transferred == bytesToTransfer { return true; }
      }
    }

    /** prvPagedEventBufferTransfer: one page, in as many pieces as the port takes it, or part of one if the
        port fails. */
    method Transfer(port: StreamPort) returns (transferred: nat, stopped: bool)
      requires Valid()
      modifies this, pageInfo, port
      ensures Valid() && lowWaterMark == old(lowWaterMark)
      ensures match Fetched(old(State()))
              case None => transferred == 0 && !stopped && State() == old(State()) &&
                  port.received == old(port.received)
              case Some(i) =>
                var taken, bytes := old(State()).(last := i), old(State()).pages[i].bytes;
                if stopped then
                  transferred == 0 && State() == taken &&
                  exists k | 0 <= k <= |bytes| :: port.received == old(port.received) + bytes[..k]
                else
                  transferred == |bytes| && State() == Released(taken, i) && port.received == old(port.received) + bytes
    {
      hide Base, Fits, Pages, Seek, Room;
      transferred, stopped := 0, false;
      var page, bytesToTransfer := GetBufferPage();
      if page == -1 { return; }
      var ok := SendPage(port, page, bytesToTransfer);
      if !ok { return 0, true; }
      ReleasedCounts(State(), page);
      PageReadComplete(page);
      transferred := bytesToTransfer;
    }

    lemma PageStarts(i: nat)
      ensures i * size == Base(i, size)
    {
    }

    // The event is dropped.
    method DropEvent()
      requires Shape() && currentWritePage == -1
      modifies this`droppedEventCounter
      ensures Shape() && State() == Drop(old(State()))
    {
      droppedEventCounter := droppedEventCounter + 1;
    }

    method ChangeWritePage()
      requires Shape()
      modifies this`currentWritePage
      ensures Shape()
      ensures var q, i := old(State()), if old(currentWritePage) == -1 then -1 else old(currentWritePage);
              State() == q.(write := Allocated(q, i))
    {
      hide Allocated, Fits, Pages;
      currentWritePage := AllocateBufferPage(currentWritePage);
    }

    method NoteLow()
      requires Shape()
      modifies this`lowWaterMark
      ensures Shape() && State() == old(State()) && lowWaterMark == Min(old(lowWaterMark), totalBytesRemaining)
    {
      if totalBytesRemaining < lowWaterMark {
        lowWaterMark := totalBytesRemaining;
      }
    }

    // The page being written gives way to another one if it is too full.
    method EnsureRoom(sizeOfEvent: nat) returns (found: bool)
      requires Valid() && currentWritePage != -1
      modifies this, pageInfo
      ensures Shape() && State() == MoveOn(old(State()), sizeOfEvent)
      ensures lowWaterMark == Min(old(lowWaterMark), totalBytesRemaining)
      ensures found <==> currentWritePage != -1
    {
      hide Allocated, Fits, Pages, Base;
      UsedBytes(currentWritePage);
      found := true;
      if pageInfo[currentWritePage].bytesRemaining - sizeOfEvent < 0 {
        CloseWritten();
        NoteLow();
        ChangeWritePage();
        if currentWritePage == -1 {
          DropEvent();
          found := false;
        }
      }
    }

    method ChoosePage(sizeOfEvent: nat) returns (found: bool)
      requires Valid() && sizeOfEvent <= size
      modifies this, pageInfo
      ensures Shape() && State() == Opened(old(State()), sizeOfEvent)
      ensures lowWaterMark == Min(old(lowWaterMark), totalBytesRemaining)
      ensures found <==> currentWritePage != -1
    {
      hide Fits, Pages, MoveOn, Seek;
      if currentWritePage == -1 {
        ChangeWritePage();
        if currentWritePage == -1 {
          DropEvent();
          return false;
        }
      }
      found := EnsureRoom(sizeOfEvent);
    }

    /** prvPagedEventBufferGetWritePointer: room for `sizeOfEvent` bytes, or nothing and one more event
        dropped; and the least room there has ever been is kept up to date. */
    method GetWritePointer(sizeOfEvent: nat) returns (pointer: Option<nat>)
      requires Valid() && sizeOfEvent <= size
      modifies this, pageInfo
      ensures Shape() && lowWaterMark == Min(old(lowWaterMark), totalBytesRemaining)
      ensures pointer.Some? <==> Opened(old(State()), sizeOfEvent).write.Some?
      ensures pointer.None? ==> State() == Opened(old(State()), sizeOfEvent)
      ensures pointer.Some? ==>
                currentWritePage != -1 && sizeOfEvent <= pointer.value + sizeOfEvent <= eventBuffer.Length &&
                pageInfo[currentWritePage].writePointer == pointer.value + sizeOfEvent &&
                Base(currentWritePage, size) <= pointer.value &&
                State() == Stored(old(State()), eventBuffer[pointer.value..pointer.value + sizeOfEvent])
    {
      hide Opened, Room, Fits, Pages, Base;
      OpenedCounts(State(), sizeOfEvent);
      var found := ChoosePage(sizeOfEvent);
      if !found { return None; }
      UsedBytes(currentWritePage);
      pointer := Some(pageInfo[currentWritePage].writePointer);
      TakeRoom(sizeOfEvent);
      NoteLow();
    }

    // The page being written will get no more bytes.
    method CloseWritten()
      requires Valid() && currentWritePage != -1
      modifies pageInfo, this`totalBytesRemaining
      ensures Shape() && State() == Close(old(State()))
    {
      ghost var info := pageInfo[..];
      var page := pageInfo[currentWritePage].(status := READ);
      UsedBytes(currentWritePage);
      InfoUpdate(info, eventBuffer[..], size, currentWritePage, page);
      pageInfo[currentWritePage] := page;
      assert pageInfo[..] == info[currentWritePage := page];
      totalBytesRemaining := totalBytesRemaining - page.bytesRemaining;
    }

    // The next bytes of the page being written are given to an event.
    method TakeRoom(sizeOfEvent: nat)
      requires Shape() && currentWritePage != -1 && sizeOfEvent <= pageInfo[currentWritePage].bytesRemaining
      modifies pageInfo, this`totalBytesRemaining
      ensures Shape()
      ensures pageInfo[currentWritePage].writePointer == old(pageInfo[currentWritePage].writePointer) + sizeOfEvent
      ensures var at := old(pageInfo[currentWritePage].writePointer);
              at + sizeOfEvent <= eventBuffer.Length &&
              State() == Append(old(State()), eventBuffer[at..at + sizeOfEvent])
    {
      ghost var info, at := pageInfo[..], pageInfo[currentWritePage].writePointer;
      var was := pageInfo[currentWritePage];
      var page := was.(writePointer := was.writePointer + sizeOfEvent, bytesRemaining :=
          was.bytesRemaining - sizeOfEvent);
      UsedBytes(currentWritePage);
      InfoUpdate(info, eventBuffer[..], size, currentWritePage, page);
      pageInfo[currentWritePage] := page;
      assert pageInfo[..] == info[currentWritePage := page];
      totalBytesRemaining := totalBytesRemaining - sizeOfEvent;
      ghost var lo := Base(currentWritePage, size);
      assert eventBuffer[lo..at + sizeOfEvent] == eventBuffer[lo..at] + eventBuffer[at..at + sizeOfEvent];
    }

    /** An event is stored: room is asked for, and its bytes are put there. */
    method Store(event: array<Byte>) returns (stored: bool)
      requires Valid() && event.Length <= size && event != eventBuffer
      modifies this, pageInfo, eventBuffer
      ensures Valid() && State() == Stored(old(State()), event[..])
      ensures stored <==> State().write.Some?
      ensures lowWaterMark == Min(old(lowWaterMark), totalBytesRemaining)
    {
      hide Stored, Opened, Room, Fits, Pages, Base, Wrote;
      ghost var q := State();
      StoredCounts(q, event[..]);
      var pointer := GetWritePointer(event.Length);
      stored := pointer.Some?;
      StoredAt(q, event[..]);
      if pointer.None? { return; }
      ghost var info, was, w, at := pageInfo[..], eventBuffer[..], currentWritePage, pointer.value;
      ghost var kept, junk := was[Base(w, size)..at], was[at..at + event.Length];
      UsedBytes(w);
      assert was[Base(w, size)..at + event.Length] == kept + junk;
      StoredAt(q, junk);
      StoredInstead(q, w, kept, junk, event[..]);
      CopyEvent(event, pointer.value);
      EventPut(info, was, eventBuffer[..], size, w, at, event[..]);
    }

    method CopyEvent(event: array<Byte>, at: nat)
      requires at + event.Length <= eventBuffer.Length && event != eventBuffer
      modifies eventBuffer
      ensures Wrote(old(eventBuffer[..]), eventBuffer[..], at, event[..])
    {
      for i := 0 to event.Length
        invariant Wrote(old(eventBuffer[..]), eventBuffer[..], at, event[..i])
      {
        ghost var before := eventBuffer[..];
        eventBuffer[at + i] := event[i];
        assert Wrote(before, eventBuffer[..], at + i, [event[i]]);
        WroteBoth(old(eventBuffer[..]), before, eventBuffer[..], at, event[..i], [event[i]]);
        assert event[..i] + [event[i]] == event[..i + 1];
      }
      assert event[..event.Length] == event[..];
    }
  }

  lemma StoredAt(q: Queue, event: seq<Byte>)
    requires q.Valid() && |event| <= q.size
    ensures var p := Opened(q, |event|);
            Stored(q, event).write == p.write && (p.write.None? ==> Stored(q, event) == p)
  {
    hide Opened;
  }

  // Whatever bytes an event has, the same page and the same room are taken for it.
  lemma StoredInstead(q: Queue, w: nat, kept: seq<Byte>, junk: seq<Byte>, event: seq<Byte>)
    requires q.Valid() && |junk| == |event| <= q.size && Opened(q, |event|).write == Some(w)
    requires w < |Stored(q, junk).pages| && Stored(q, junk).pages[w].bytes == kept + junk
    ensures var r := Stored(q, junk);
            Stored(q, event) == r.(pages := r.pages[w := Page(r.pages[w].ready, kept + event)])
  {
    var p := Opened(q, |event|);
    hide Opened;
    assert p.pages[w].bytes + junk == kept + junk;
    assert (p.pages[w].bytes + junk)[..|kept|] == p.pages[w].bytes && (kept + junk)[..|kept|] == kept;
  }

  lemma SeekStep(pages: seq<Page>, ready: bool, from: nat, tries: nat)
    requires from < |pages|
    ensures Seek(pages, ready, from, tries) ==
            if tries == 0 then None
            else if pages[from].ready == ready then Some(from)
            else Seek(pages, ready, Next(from, |pages|), tries - 1)
  {
  }
}
