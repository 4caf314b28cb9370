/** Co-routine scheduler (FreeRTOS/src/croutine.c): ready lists, two delayed lists that change
    places when the tick counter wraps, and a pending list that interrupts fill.
    Lists behave as FreeRTOS/inc/list.h documents them, delayed lists in ascending item value. */
module CoRoutines {
  import opened Wrappers

  // ---------------------------------------------------------------------------------------------
  // What the scheduler promises: a timer that a trace of marks drives

  datatype Mark = Sleep(id: nat, ticks: nat) | Signal(id: nat) | Tick | Timeout(id: nat) | Event(id: nat)

  /** Unbounded time, when each sleeper is due, and which sleepers an event has signalled. */
  datatype Clock = Clock(now: nat, due: map<nat, nat>, signalled: set<nat>)

  function After(c: Clock, m: Mark): Option<Clock> {
    match m
    case Sleep(id, ticks) =>
      if id in c.due || ticks == 0 then None else Some(c.(due := c.due[id := c.now + ticks]))
    case Signal(id) =>
      if id !in c.due || id in c.signalled then None else Some(c.(signalled := c.signalled + {id}))
    case Tick =>
      if exists id | id in c.due :: c.due[id] <= c.now then None else Some(c.(now := c.now + 1))
    case Timeout(id) =>
      if id !in c.due || c.due[id] != c.now then None else Some(Woken(c, id))
    case Event(id) =>
      if id !in c.due || id !in c.signalled || c.due[id] <= c.now then None else Some(Woken(c, id))
  }

  function Woken(c: Clock, id: nat): Clock {
    c.(due := c.due - {id}, signalled := c.signalled - {id})
  }

  function Play(trace: seq<Mark>): Option<Clock> {
    if |trace| == 0 then Some(Clock(0, map[], {}))
    else match Play(trace[..|trace| - 1])
      case None => None
      case Some(c) => After(c, trace[|trace| - 1])
  }

  function Ticks(trace: seq<Mark>): nat {
    if |trace| == 0 then 0
    else Ticks(trace[..|trace| - 1]) + if trace[|trace| - 1].Tick? then 1 else 0
  }

  lemma PlayStep(trace: seq<Mark>, m: Mark)
    requires Play(trace).Some?
    ensures Play(trace + [m]) == After(Play(trace).value, m)
  {
    assert (trace + [m])[..|trace|] == trace;
  }

  /** Every mark of an accepted trace was accepted when it came; the clock counts the ticks. */
  lemma {:induction false} Accepted(trace: seq<Mark>, n: nat)
    requires Play(trace).Some? && n <= |trace|
    ensures Play(trace[..n]).Some? && Play(trace[..n]).value.now == Ticks(trace[..n])
    ensures Play(trace[..n]).value.signalled <= Play(trace[..n]).value.due.Keys
    ensures n < |trace| ==> After(Play(trace[..n]).value, trace[n]) == Play(trace[..n + 1])
    ensures n < |trace| ==> Play(trace[..n + 1]).Some?
    ensures n < |trace| ==> Ticks(trace[..n + 1]) == Ticks(trace[..n]) + if trace[n].Tick? then 1 else 0
    decreases |trace|, n
  {
    if n < |trace| {
      var m: nat := |trace| - 1;
      Accepted(trace[..m], n);
      assert trace[..m][..n] == trace[..n] && trace[..n + 1][..n] == trace[..n];
      if n == m { assert trace[..n + 1] == trace; } else { assert trace[..m][..n + 1] == trace[..n + 1]; }
    } else {
      assert trace[..n] == trace;
      if n > 0 {
        Accepted(trace[..n - 1], n - 1);
        assert trace[..n - 1][..n - 1] == trace[..n - 1];
      }
    }
  }

  predicate Wakes(m: Mark, id: nat) { m == Timeout(id) || m == Event(id) }

  /** A sleep that nothing has ended yet is still pending, with the due time it was given. */
  lemma {:induction false} StillAsleep(trace: seq<Mark>, i: nat, j: nat)
    requires Play(trace).Some? && i < j <= |trace| && trace[i].Sleep?
    requires forall k | i < k < j :: !Wakes(trace[k], trace[i].id)
    ensures Play(trace[..j]).Some?
    ensures var c := Play(trace[..j]).value; var id := trace[i].id;
            id in c.due && c.due[id] == Ticks(trace[..i]) + trace[i].ticks &&
            (id in c.signalled ==> Signal(id) in trace[i..j])
    decreases j
  {
    hide Play, Ticks;
    Accepted(trace, j - 1);
    assert trace[i..j] == trace[i..j - 1] + [trace[j - 1]];
    if j > i + 1 { StillAsleep(trace, i, j - 1); }
  }

  /** A sleep of `d` ticks ends exactly `d` ticks later, or earlier and then by an event that
      signalled this sleeper during this sleep. It cannot last longer. */
  lemma ExactDelay(trace: seq<Mark>, i: nat, j: nat)
    requires Play(trace).Some? && i < j < |trace| && trace[i].Sleep?
    requires forall k | i < k < j :: !Wakes(trace[k], trace[i].id)
    ensures var slept := Ticks(trace[..j]) - Ticks(trace[..i]); var id := trace[i].id;
            && (trace[j] == Timeout(id) ==> slept == trace[i].ticks)
            && (trace[j] == Event(id) ==> 0 <= slept < trace[i].ticks && Signal(id) in trace[i..j])
            && (trace[j] == Tick ==> slept < trace[i].ticks)
  {
    hide Play, Ticks;
    StillAsleep(trace, i, j);
    Accepted(trace, j);
    TicksGrow(trace, i, j);
  }

  lemma {:induction false} TicksGrow(trace: seq<Mark>, i: nat, j: nat)
    requires i <= j <= |trace|
    ensures Ticks(trace[..i]) <= Ticks(trace[..j])
    decreases j
  {
    if i < j {
      TicksGrow(trace, i, j - 1);
      assert trace[..j][..j - 1] == trace[..j - 1];
    }
  }

  /** Nobody is readied twice: between two wake-ups of one co-routine it has gone to sleep again. */
  lemma OneWakePerSleep(trace: seq<Mark>, i: nat, j: nat, id: nat)
    requires Play(trace).Some? && i < j < |trace| && Wakes(trace[i], id) && Wakes(trace[j], id)
    ensures exists k | i < k < j :: trace[k].Sleep? && trace[k].id == id
  {
    hide Play, Ticks;
    Accepted(trace, j);
    if forall k | i < k < j :: !(trace[k].Sleep? && trace[k].id == id) {
      StaysAwake(trace, i, j, id);
    }
  }

  lemma {:induction false} StaysAwake(trace: seq<Mark>, i: nat, j: nat, id: nat)
    requires Play(trace).Some? && i < j <= |trace| && Wakes(trace[i], id)
    requires forall k | i < k < j :: !(trace[k].Sleep? && trace[k].id == id)
    ensures Play(trace[..j]).Some? && id !in Play(trace[..j]).value.due
    decreases j
  {
    hide Play, Ticks;
    Accepted(trace, j - 1);
    if j > i + 1 { StaysAwake(trace, i, j - 1, id); }
  }

  // ---------------------------------------------------------------------------------------------
  // Lists

  /** Ids in list order, and where pxIndex stands: 0 is the end marker, k is the item items[k - 1]. */
  datatype List = List(items: seq<nat>, index: nat) {
    predicate Valid() { index <= |items| }

    /** The order in which listGET_OWNER_OF_NEXT_ENTRY will serve the items. */
    function Ring(): seq<nat>
      requires Valid()
    {
      items[index..] + items[..index]
    }

    /** `id` is the one whose turn it is, and after its turn it is last in line. */
    predicate Serves(id: nat, after: List) {
      Valid() && items != [] && after.Valid() && id == Ring()[0] && after.Ring() == Ring()[1..] + [id]
    }

    // vListInsertEnd: in the place that pxIndex points to.
    function InsertEnd(id: nat): List
      requires Valid()
    {
      if index == 0 then List(items + [id], 0)
      else List(items[..index - 1] + [id] + items[index - 1..], index + 1)
    }

    // uxListRemove: pxIndex steps back when the item under it goes.
    function Remove(i: nat): List
      requires Valid() && i < |items|
    {
      List(items[..i] + items[i + 1..], if i < index then index - 1 else index)
    }

    // listGET_OWNER_OF_NEXT_ENTRY: the end marker is stepped over.
    function Advance(): List
      requires Valid() && |items| > 0
    {
      List(items, if index == |items| then 1 else index + 1)
    }
  }

  /** A newcomer waits for everybody but the one being served now: no ready co-routine is
      overtaken by one of its own priority. */
  lemma NewcomerIsLast(l: List, id: nat)
    requires l.Valid()
    ensures l.InsertEnd(id).Valid() && |l.InsertEnd(id).items| == |l.items| + 1
    ensures var r, n := l.Ring(), l.InsertEnd(id).Ring();
            if l.index == 0 then n == r + [id] else n == r[..|r| - 1] + [id, r[|r| - 1]]
  {
    if l.index > 0 {
      var r := l.Ring();
      assert r[..|r| - 1] == l.items[l.index..] + l.items[..l.index - 1];
      assert r[|r| - 1] == l.items[l.index - 1];
      var n := l.InsertEnd(id);
      assert n.items[n.index..] == l.items[l.index..];
      assert n.items[..n.index] == l.items[..l.index - 1] + [id, l.items[l.index - 1]];
    }
  }

  /** `b` is `a` with newcomers, who have lined up behind everybody but the one being served. */
  ghost predicate Queued(a: List, b: List) {
    a == b || exists late: seq<nat> :: LinedUp(a, b, late)
  }

  predicate LinedUp(a: List, b: List, late: seq<nat>) {
    && a.Valid() && b.Valid() && (a.index == 0 <==> b.index == 0)
    && var r := a.Ring();
       if a.index == 0 then b.Ring() == r + late
       else r != [] && b.Ring() == r[..|r| - 1] + late + [r[|r| - 1]]
  }

  lemma QueuedOne(l: List, id: nat)
    requires l.Valid()
    ensures Queued(l, l.InsertEnd(id))
  {
    NewcomerIsLast(l, id);
    assert LinedUp(l, l.InsertEnd(id), [id]);
  }

  lemma QueuedTwice(a: List, b: List, c: List)
    requires Queued(a, b) && Queued(b, c)
    ensures Queued(a, c)
  {
    if a != b && b != c {
      var x: seq<nat> :| LinedUp(a, b, x);
      var y: seq<nat> :| LinedUp(b, c, y);
      LinedUpTwice(a, b, c, x, y);
      hide LinedUp;
    }
  }

  lemma LinedUpTwice(a: List, b: List, c: List, x: seq<nat>, y: seq<nat>)
    requires LinedUp(a, b, x) && LinedUp(b, c, y)
    ensures LinedUp(a, c, x + y)
  {
    hide List.Ring;
    var r := a.Ring();
    if a.index == 0 {
      assert r + x + y == r + (x + y);
    } else {
      var first, last, n := r[..|r| - 1], r[|r| - 1], b.Ring();
      assert n[..|n| - 1] == first + x && n[|n| - 1] == last;
      assert first + x + y == first + (x + y);
    }
  }

  /** Serving takes the turn of the one who has waited longest. */
  lemma ServingRotates(l: List)
    requires l.Valid() && |l.items| > 0
    ensures l.Advance().index > 0 && l.Serves(l.Advance().items[l.Advance().index - 1], l.Advance())
  {
    var k := if l.index == |l.items| then 0 else l.index;
    assert l.Ring() == l.items[k..] + l.items[..k];
    assert l.items[k..] == [l.items[k]] + l.items[k + 1..];
    assert l.items[..k + 1] == l.items[..k] + [l.items[k]];
    assert l.Ring()[1..] == l.items[k + 1..] + l.items[..k];
  }

  /** The ids that are served when the list is asked `n` times, and the list after that. */
  function Turns(l: List, n: nat): (r: (seq<nat>, List))
    requires l.Valid() && |l.items| > 0
    ensures r.1.Valid() && r.1.items == l.items
    decreases n
  {
    if n == 0 then ([], l)
    else
      var next := l.Advance();
      var (ids, last) := Turns(next, n - 1);
      ([next.items[next.index - 1]] + ids, last)
  }

  lemma {:induction false} FirstTurns(l: List, n: nat)
    requires l.Valid() && |l.items| > 0 && n <= |l.items|
    ensures Turns(l, n).0 == l.Ring()[..n] && Turns(l, n).1.Ring() == l.Ring()[n..] + l.Ring()[..n]
    decreases n
  {
    var r := l.Ring();
    if n > 0 {
      ServingRotates(l);
      var next := l.Advance();
      hide List.Ring, List.Advance;
      FirstTurns(next, n - 1);
      Rotated(r, n);
    } else {
      assert r[0..] + r[..0] == r;
    }
  }

  lemma Rotated(r: seq<nat>, n: nat)
    requires 0 < n <= |r|
    ensures var next := r[1..] + [r[0]];
            [r[0]] + next[..n - 1] == r[..n] && next[n - 1..] + next[..n - 1] == r[n..] + r[..n]
  {
    var next := r[1..] + [r[0]];
    assert next[..n - 1] == r[1..n] && next[n - 1..] == r[n..] + [r[0]];
    assert [r[0]] + r[1..n] == r[..n];
  }

  /** As many turns as there are co-routines of a priority serve every one of them exactly once, in the order
      in which they stand in line, and then the line is as it was. */
  lemma EveryTurn(l: List)
    requires l.Valid() && |l.items| > 0
    ensures var (ids, last) := Turns(l, |l.items|);
            ids == l.Ring() && last.Ring() == l.Ring() && multiset(ids) == multiset(l.items)
  {
    hide Turns, List.Ring;
    RingHasAll(l);
    FirstTurns(l, |l.items|);
    var r := l.Ring();
    assert r[..|r|] == r && r[|r|..] + r[..|r|] == r;
  }

  lemma RingHasAll(l: List)
    requires l.Valid()
    ensures |l.Ring()| == |l.items| && multiset(l.Ring()) == multiset(l.items)
  {
    assert l.items == l.items[..l.index] + l.items[l.index..];
  }

  /** Taking an item out leaves everybody else's turn as it was. */
  lemma RemoveKeepsTurns(l: List, i: nat)
    requires l.Valid() && i < |l.items|
    ensures l.Remove(i).Valid()
    ensures var k := if i < l.index then |l.items| - l.index + i else i - l.index;
            l.Remove(i).Ring() == l.Ring()[..k] + l.Ring()[k + 1..]
  {
    var s, x := l.items, l.index;
    var r, ring := l.Remove(i), l.Ring();
    if i < x {
      var k := |s| - x + i;
      assert ring[..k] == s[x..] + s[..i] && ring[k + 1..] == s[i + 1..x];
      assert r.items[r.index..] == s[x..] && r.items[..r.index] == s[..i] + s[i + 1..x];
    } else {
      var k := i - x;
      assert ring[..k] == s[x..i] && ring[k + 1..] == s[i + 1..] + s[..x];
      assert r.items[r.index..] == s[x..i] + s[i + 1..] && r.items[..r.index] == s[..x];
    }
  }

  predicate Distinct(s: seq<nat>) {
    forall i, j :: 0 <= i < j < |s| ==> s[i] != s[j]
  }

  /** The list `s` holds exactly the items whose container is `place`, once each. */
  ghost predicate Holds<P>(s: seq<nat>, container: map<nat, P>, place: P) {
    Distinct(s) && forall id :: id in s <==> id in container && container[id] == place
  }

  lemma HoldsAfterRemove<P>(s: seq<nat>, i: nat, container: map<nat, P>, place: P, other: P)
    requires i < |s| && Holds(s, container, place) && other != place
    ensures Holds(s[..i] + s[i + 1..], container[s[i] := other], place)
  {
    var t, f := s[..i] + s[i + 1..], container[s[i] := other];
    assert forall k | 0 <= k < |t| :: t[k] == if k < i then s[k] else s[k + 1];
    forall id ensures id in t <==> id in f && f[id] == place {
      if id in s && id != s[i] {
        var k :| 0 <= k < |s| && s[k] == id;
        assert t[if k < i then k else k - 1] == id;
      }
    }
  }

  lemma HoldsAfterInsert<P>(s: seq<nat>, i: nat, id: nat, container: map<nat, P>, place: P)
    requires i <= |s| && Holds(s, container, place) && (id in container ==> container[id] != place)
    ensures Holds(s[..i] + [id] + s[i..], container[id := place], place)
  {
    var t, f := s[..i] + [id] + s[i..], container[id := place];
    assert forall k | 0 <= k < |t| :: t[k] == if k < i then s[k] else if k == i then id else s[k - 1];
    assert id !in s;
    forall x ensures x in t <==> x in f && f[x] == place {
      if x in s {
        var k :| 0 <= k < |s| && s[k] == x;
        assert t[if k < i then k else k + 1] == x;
      }
      if x == id { assert t[i] == id; }
    }
  }

  lemma HoldsElsewhere<P>(s: seq<nat>, id: nat, container: map<nat, P>, place: P, other: P)
    requires Holds(s, container, place) && (id in container ==> container[id] != place) && other != place
    ensures Holds(s, container[id := other], place)
  {
  }

  predicate Ascending(s: seq<nat>, value: map<nat, nat>) {
    && (forall id <- s :: id in value)
    && forall i, j :: 0 <= i < j < |s| ==> value[s[i]] <= value[s[j]]
  }

  /** Where vListInsert puts an item of value `v`: behind everything that is not greater. */
  function Slot(s: seq<nat>, value: map<nat, nat>, v: nat): (k: nat)
    requires Ascending(s, value)
    ensures k <= |s|
    ensures forall i :: 0 <= i < k ==> value[s[i]] <= v
    ensures forall i :: k <= i < |s| ==> v < value[s[i]]
  {
    if |s| == 0 || v < value[s[0]] then 0 else 1 + Slot(s[1..], value, v)
  }

  lemma InsertAscending(s: seq<nat>, value: map<nat, nat>, id: nat, v: nat)
    requires Ascending(s, value) && id !in s
    ensures var k := Slot(s, value, v); Ascending(s[..k] + [id] + s[k..], value[id := v])
  {
    hide Slot, Ascending;
    var k := Slot(s, value, v);
    var t, f := s[..k] + [id] + s[k..], value[id := v];
    forall i | 0 <= i < |t| ensures t[i] in f {
      if i != k { AscendingAt(s, value, id, v, if i < k then i else i - 1); }
    }
    forall i: nat, j: nat | i < j < |t| ensures f[t[i]] <= f[t[j]] {
      InsertedPair(s, value, id, v, i, j);
    }
    AscendingIs(t, f);
  }

  lemma AscendingIs(s: seq<nat>, value: map<nat, nat>)
    requires forall i | 0 <= i < |s| :: s[i] in value
    requires forall i: nat, j: nat | i < j < |s| :: value[s[i]] <= value[s[j]]
    ensures Ascending(s, value)
  {
  }

  lemma InsertedPair(s: seq<nat>, value: map<nat, nat>, id: nat, v: nat, i: nat, j: nat)
    requires Ascending(s, value) && id !in s && i < j <= |s|
    ensures var k := Slot(s, value, v);
            var t, f := s[..k] + [id] + s[k..], value[id := v];
            t[i] in f && t[j] in f && f[t[i]] <= f[t[j]]
  {
    var k := Slot(s, value, v);
    hide Slot;
    var a, b := if i < k then i else i - 1, if j < k then j else j - 1;
    if i == k {
      AscendingAt(s, value, id, v, b);
    } else if j == k {
      AscendingAt(s, value, id, v, a);
    } else {
      AscendingAt(s, value, id, v, a);
      AscendingAt(s, value, id, v, b);
    }
  }

  lemma AscendingAt(s: seq<nat>, value: map<nat, nat>, id: nat, v: nat, a: nat)
    requires Ascending(s, value) && id !in s && a < |s|
    ensures var k := Slot(s, value, v); var t, f := s[..k] + [id] + s[k..], value[id := v];
              var i := if a < k then a else a + 1;
            && t[k] == id && i < |t| && t[i] == s[a] && s[a] in value && s[a] != id && f[s[a]] == value[s[a]]
  {
    hide Slot;
    assert s[a] in s;
  }

  lemma RemoveAscending(s: seq<nat>, value: map<nat, nat>, i: nat)
    requires Ascending(s, value) && i < |s|
    ensures Ascending(s[..i] + s[i + 1..], value)
  {
    var t := s[..i] + s[i + 1..];
    assert forall k | 0 <= k < |t| :: t[k] == if k < i then s[k] else s[k + 1];
  }

  // ---------------------------------------------------------------------------------------------
  // What the scheduler's lists and item containers always satisfy

  /** The container of a generic list item, and of an event list item. */
  datatype Place = Nowhere | Ready(priority: nat) | Asleep(list: nat)
  datatype Post = Free | Pending | Waiting(list: nat)

  /** Every control block is complete; the event item's value puts higher priorities first. */
  ghost predicate BlocksOk(levels: nat, priority: map<nat, nat>, order: map<nat, nat>, wake: map<nat, nat>,
                           generic: map<nat, Place>, event: map<nat, Post>, current: Option<nat>)
  {
    && (forall id :: id in generic <==> id in priority)
    && (forall id :: id in generic <==> id in event)
    && (forall id :: id in generic <==> id in order)
    && (forall id :: id in generic <==> id in wake)
    && (forall id :: id in priority ==> priority[id] < levels && order[id] == levels - priority[id])
    && (if current.Some? then current.value in priority else forall id :: id !in priority)
  }

  ghost predicate ReadyOk(levels: nat, top: nat, priority: map<nat, nat>, generic: map<nat, Place>, ready: seq<List>) {
    && |ready| == levels && top < levels
    && (forall p :: 0 <= p < levels ==> ready[p].Valid() && Holds(ready[p].items, generic, Ready(p)))
    && (forall id :: id in generic && generic[id].Ready? ==>
          id in priority && generic[id].priority == priority[id] <= top)
  }

  ghost predicate SleepOk(generic: map<nat, Place>, sleeping: seq<seq<nat>>, wake: map<nat, nat>) {
    && |sleeping| == 2
    && (forall k :: 0 <= k < 2 ==> Holds(sleeping[k], generic, Asleep(k)) && Ascending(sleeping[k], wake))
    && (forall id :: id in generic && generic[id].Asleep? ==> generic[id].list < 2)
  }

  ghost predicate EventsOk(event: map<nat, Post>, pending: seq<nat>, waiting: seq<seq<nat>>, order: map<nat, nat>) {
    && Holds(pending, event, Pending)
    && (forall k :: 0 <= k < |waiting| ==> Holds(waiting[k], event, Waiting(k)) && Ascending(waiting[k], order))
    && (forall id :: id in event && event[id].Waiting? ==> event[id].list < |waiting|)
  }

  /** Wake times are kept modulo the tick counter's range: those in the current list are still to
      come before the counter wraps, those in the overflow list come after it has. */
  ghost predicate Timed(modulus: nat, active: nat, tick: nat, bound: nat, wake: map<nat, nat>,
                        generic: map<nat, Place>, clock: Clock)
  {
    && tick < modulus && tick <= clock.now && active < 2
    && (forall id :: id in clock.due <==> id in generic && generic[id].Asleep?)
    && (forall id :: id in clock.due ==>
          && id in wake && wake[id] < modulus && generic[id].list < 2
          && (generic[id].list == active ==> bound <= wake[id] && clock.due[id] == clock.now - tick + wake[id])
          && (generic[id].list != active ==>
                wake[id] < tick && clock.due[id] == clock.now - tick + modulus + wake[id]))
  }

  /** Only a sleeper has its event item in a list; a pending one has been signalled. */
  ghost predicate Linked(event: map<nat, Post>, clock: Clock) {
    && (forall id :: id in event && event[id] != Free ==> id in clock.due)
    && (forall id :: id in event && event[id] == Pending ==> id in clock.signalled)
    && (forall id :: id in clock.signalled ==> id in event && !event[id].Waiting?)
  }

  // Every generic item is in a list.
  ghost predicate Placed(generic: map<nat, Place>) {
    forall id :: id in generic ==> generic[id] != Nowhere
  }

  lemma PlacedAgain(generic: map<nat, Place>, id: nat, to: Place)
    ensures generic[id := Nowhere][id := to] == generic[id := to]
    ensures to != Nowhere && Placed(generic) ==> Placed(generic[id := to])
  {
  }

  lemma PlacedAtLast(generic: map<nat, Place>, id: nat, to: Place)
    requires Placed(generic[id := Ready(0)]) && to != Nowhere
    ensures Placed(generic[id := to])
  {
    var g := generic[id := to];
    forall x | x in g ensures g[x] != Nowhere {
      assert x in generic[id := Ready(0)];
    }
  }

  // Whoever has been signalled is still waiting in the pending list; HeldBut makes one exception.
  ghost predicate Held(event: map<nat, Post>, clock: Clock) {
    forall id :: id in clock.signalled ==> id in event && event[id] == Pending
  }

  ghost predicate HeldBut(event: map<nat, Post>, clock: Clock, but: nat) {
    forall id :: id in clock.signalled && id != but ==> id in event && event[id] == Pending
  }

  lemma LeaveReady(levels: nat, top: nat, priority: map<nat, nat>, generic: map<nat, Place>, ready: seq<List>,
                   id: nat, i: nat)
    requires ReadyOk(levels, top, priority, generic, ready)
    requires id in generic && generic[id].Ready? && generic[id].priority < levels
    requires i < |ready[generic[id].priority].items| && ready[generic[id].priority].items[i] == id
    ensures var p := generic[id].priority;
            ReadyOk(levels, top, priority, generic[id := Nowhere], ready[p := ready[p].Remove(i)])
  {
    var p := generic[id].priority;
    HoldsAfterRemove(ready[p].items, i, generic, Ready(p), Nowhere);
    hide Holds;
    forall q | 0 <= q < levels && q != p ensures Holds(ready[q].items, generic[id := Nowhere], Ready(q)) {
      HoldsElsewhere(ready[q].items, id, generic, Ready(q), Nowhere);
    }
  }

  lemma JoinReady(levels: nat, top: nat, priority: map<nat, nat>, generic: map<nat, Place>, ready: seq<List>, id: nat)
    requires ReadyOk(levels, top, priority, generic, ready)
    requires id in generic ==> generic[id] == Nowhere
    requires id in priority && priority[id] < levels
    ensures var p := priority[id];
            ReadyOk(levels, if p > top then p else top, priority, generic[id := Ready(p)],
                    ready[p := ready[p].InsertEnd(id)])
  {
    var p := priority[id];
    var l := ready[p];
    var i := if l.index == 0 then |l.items| else l.index - 1;
    HoldsAfterInsert(l.items, i, id, generic, Ready(p));
    assert l.InsertEnd(id).items == l.items[..i] + [id] + l.items[i..];
    hide Holds;
    forall q | 0 <= q < levels && q != p ensures Holds(ready[q].items, generic[id := Ready(p)], Ready(q)) {
      HoldsElsewhere(ready[q].items, id, generic, Ready(q), Ready(p));
    }
  }

  // Moving an item that is in no ready list, to somewhere that is not a ready list either.
  lemma BesideReady(levels: nat, top: nat, priority: map<nat, nat>, generic: map<nat, Place>, ready: seq<List>,
                    id: nat, to: Place)
    requires ReadyOk(levels, top, priority, generic, ready) && !to.Ready?
    requires id in generic ==> !generic[id].Ready?
    ensures ReadyOk(levels, top, priority, generic[id := to], ready)
  {
    forall q | 0 <= q < levels ensures Holds(ready[q].items, generic[id := to], Ready(q)) {
      HoldsElsewhere(ready[q].items, id, generic, Ready(q), to);
    }
  }

  lemma LeaveSleep(generic: map<nat, Place>, sleeping: seq<seq<nat>>, wake: map<nat, nat>, id: nat, i: nat)
    requires SleepOk(generic, sleeping, wake) && id in generic && generic[id].Asleep? && generic[id].list < 2
    requires i < |sleeping[generic[id].list]| && sleeping[generic[id].list][i] == id
    ensures var k := generic[id].list; var s := sleeping[k];
            SleepOk(generic[id := Nowhere], sleeping[k := s[..i] + s[i + 1..]], wake)
  {
    var k := generic[id].list;
    HoldsAfterRemove(sleeping[k], i, generic, Asleep(k), Nowhere);
    RemoveAscending(sleeping[k], wake, i);
    HoldsElsewhere(sleeping[1 - k], id, generic, Asleep(1 - k), Nowhere);
    hide Holds, Ascending;
  }

  lemma JoinSleep(generic: map<nat, Place>, sleeping: seq<seq<nat>>, wake: map<nat, nat>, id: nat, v: nat, k: nat)
    requires SleepOk(generic, sleeping, wake) && k < 2
    requires id in generic && !generic[id].Asleep?
    ensures var s := sleeping[k]; var i := Slot(s, wake, v);
            SleepOk(generic[id := Asleep(k)], sleeping[k := s[..i] + [id] + s[i..]], wake[id := v])
  {
    var s := sleeping[k];
    HoldsAfterInsert(s, Slot(s, wake, v), id, generic, Asleep(k));
    InsertAscending(s, wake, id, v);
    HoldsElsewhere(sleeping[1 - k], id, generic, Asleep(1 - k), Asleep(k));
    assert Ascending(sleeping[1 - k], wake[id := v]);
    hide Holds, Ascending, Slot;
  }

  lemma BesideSleep(generic: map<nat, Place>, sleeping: seq<seq<nat>>, wake: map<nat, nat>, id: nat, to: Place)
    requires SleepOk(generic, sleeping, wake) && !to.Asleep?
    requires id in generic ==> !generic[id].Asleep?
    ensures SleepOk(generic[id := to], sleeping, wake)
  {
    forall k | 0 <= k < 2 ensures Holds(sleeping[k], generic[id := to], Asleep(k)) {
      HoldsElsewhere(sleeping[k], id, generic, Asleep(k), to);
    }
  }

  lemma LeaveEvents(event: map<nat, Post>, pending: seq<nat>, waiting: seq<seq<nat>>, order: map<nat, nat>, id: nat,
      i: nat)
    requires EventsOk(event, pending, waiting, order) && id in event
    ensures event[id] == Pending && i < |pending| && pending[i] == id ==>
              EventsOk(event[id := Free], pending[..i] + pending[i + 1..], waiting, order)
    ensures event[id].Waiting? && i < |waiting[event[id].list]| && waiting[event[id].list][i] == id ==>
              var k := event[id].list; var s := waiting[k];
              EventsOk(event[id := Free], pending, waiting[k := s[..i] + s[i + 1..]], order)
  {
    var f := event[id := Free];
    if event[id] == Pending && i < |pending| && pending[i] == id {
      HoldsAfterRemove(pending, i, event, Pending, Free);
    } else if event[id].Waiting? && i < |waiting[event[id].list]| && waiting[event[id].list][i] == id {
      HoldsAfterRemove(waiting[event[id].list], i, event, event[id], Free);
      RemoveAscending(waiting[event[id].list], order, i);
      HoldsElsewhere(pending, id, event, Pending, Free);
    }
    forall k | 0 <= k < |waiting| && event[id] != Waiting(k) ensures Holds(waiting[k], f, Waiting(k)) {
      HoldsElsewhere(waiting[k], id, event, Waiting(k), Free);
    }
    hide Holds, Ascending;
  }

  lemma JoinWaiting(event: map<nat, Post>, pending: seq<nat>, waiting: seq<seq<nat>>, order: map<nat, nat>, id: nat,
      k: nat)
    requires EventsOk(event, pending, waiting, order)
    requires id in event && event[id] == Free && id in order && k < |waiting|
    ensures var s := waiting[k]; var i := Slot(s, order, order[id]);
            EventsOk(event[id := Waiting(k)], pending, waiting[k := s[..i] + [id] + s[i..]], order)
  {
    var s := waiting[k];
    HoldsAfterInsert(s, Slot(s, order, order[id]), id, event, Waiting(k));
    InsertAscending(s, order, id, order[id]);
    assert order[id := order[id]] == order;
    HoldsElsewhere(pending, id, event, Pending, Waiting(k));
    forall q | 0 <= q < |waiting| && q != k ensures Holds(waiting[q], event[id := Waiting(k)], Waiting(q)) {
      HoldsElsewhere(waiting[q], id, event, Waiting(q), Waiting(k));
    }
    hide Holds, Ascending, Slot;
  }

  lemma JoinPending(event: map<nat, Post>, pending: seq<nat>, waiting: seq<seq<nat>>, order: map<nat, nat>, id: nat)
    requires EventsOk(event, pending, waiting, order) && id in event && event[id] == Free
    ensures EventsOk(event[id := Pending], pending + [id], waiting, order)
  {
    HoldsAfterInsert(pending, |pending|, id, event, Pending);
    assert pending + [id] == pending[..|pending|] + [id] + pending[|pending|..];
    forall q | 0 <= q < |waiting| ensures Holds(waiting[q], event[id := Pending], Waiting(q)) {
      HoldsElsewhere(waiting[q], id, event, Waiting(q), Pending);
    }
    hide Holds, Ascending;
  }

  lemma LevelsPositive(levels: nat, top: nat, priority: map<nat, nat>, generic: map<nat, Place>, ready: seq<List>)
    requires ReadyOk(levels, top, priority, generic, ready)
    ensures 0 < levels
  {
  }

  lemma BlockOf(levels: nat, priority: map<nat, nat>, order: map<nat, nat>, wake: map<nat, nat>,
                generic: map<nat, Place>, event: map<nat, Post>, current: Option<nat>, id: nat)
    requires BlocksOk(levels, priority, order, wake, generic, event, current)
    requires id in generic || id in event || id in priority || current == Some(id)
    ensures id in generic && id in event && id in priority && id in order && id in wake && current.Some?
    ensures priority[id] < levels && order[id] == levels - priority[id]
  {
  }

  // The items of a known co-routine move or change their values.
  lemma BlocksMoved(levels: nat, priority: map<nat, nat>, order: map<nat, nat>, wake: map<nat, nat>,
                    generic: map<nat, Place>, event: map<nat, Post>, current: Option<nat>,
                    id: nat, to: Place, post: Post, at: nat)
    requires BlocksOk(levels, priority, order, wake, generic, event, current) && id in priority
    ensures BlocksOk(levels, priority, order, wake, generic[id := to], event, current)
    ensures BlocksOk(levels, priority, order, wake, generic, event[id := post], current)
    ensures BlocksOk(levels, priority, order, wake[id := at], generic, event, current)
    ensures BlocksOk(levels, priority, order, wake, generic, event, Some(id))
  {
  }

  lemma NewcomerBlocks(levels: nat, priority: map<nat, nat>, order: map<nat, nat>, wake: map<nat, nat>,
                       generic: map<nat, Place>, event: map<nat, Post>, current: Option<nat>, id: nat, p: nat)
    requires BlocksOk(levels, priority, order, wake, generic, event, current) && p < levels && id !in priority
    ensures id !in generic && id !in event && id !in wake && id !in order
    ensures BlocksOk(levels, priority[id := p], order[id := levels - p], wake[id := 0], generic[id := Nowhere],
                     event[id := Free], if current == None then Some(id) else current)
  {
  }

  lemma NewcomerReady(levels: nat, top: nat, priority: map<nat, nat>, generic: map<nat, Place>, ready: seq<List>,
                      id: nat, p: nat)
    requires ReadyOk(levels, top, priority, generic, ready) && id !in generic
    ensures ReadyOk(levels, top, priority[id := p], generic[id := Nowhere], ready)
  {
    BesideReady(levels, top, priority, generic, ready, id, Nowhere);
    hide Holds;
  }

  lemma NewcomerSleep(generic: map<nat, Place>, sleeping: seq<seq<nat>>, wake: map<nat, nat>, id: nat)
    requires SleepOk(generic, sleeping, wake) && id !in generic && id !in wake
    ensures SleepOk(generic[id := Nowhere], sleeping, wake[id := 0])
  {
    BesideSleep(generic, sleeping, wake, id, Nowhere);
    assert forall k | 0 <= k < 2 :: Ascending(sleeping[k], wake[id := 0]);
    hide Holds, Ascending;
  }

  lemma NewcomerEvents(event: map<nat, Post>, pending: seq<nat>, waiting: seq<seq<nat>>, order: map<nat, nat>,
                       id: nat, value: nat)
    requires EventsOk(event, pending, waiting, order) && id !in event && id !in order
    ensures EventsOk(event[id := Free], pending, waiting, order[id := value])
  {
    HoldsElsewhere(pending, id, event, Pending, Free);
    forall k | 0 <= k < |waiting| ensures Holds(waiting[k], event[id := Free], Waiting(k)) {
      HoldsElsewhere(waiting[k], id, event, Waiting(k), Free);
    }
    assert forall k | 0 <= k < |waiting| :: Ascending(waiting[k], order[id := value]);
    hide Holds, Ascending;
  }

  lemma NewcomerTimed(modulus: nat, active: nat, tick: nat, bound: nat, wake: map<nat, nat>, generic: map<nat, Place>,
                      clock: Clock, id: nat, to: Place)
    requires Timed(modulus, active, tick, bound, wake, generic, clock) && id !in generic && !to.Asleep?
    ensures Timed(modulus, active, tick, bound, wake[id := 0], generic[id := to], clock)
  {
  }

  lemma NewcomerLinks(event: map<nat, Post>, clock: Clock, id: nat)
    requires Linked(event, clock) && Held(event, clock) && id !in event
    ensures Linked(event[id := Free], clock) && Held(event[id := Free], clock)
  {
  }

  /** When the counter wraps, nobody is left in the list that is about to become the overflow list. */
  lemma EmptyAtSwap(modulus: nat, active: nat, tick: nat, wake: map<nat, nat>, generic: map<nat, Place>,
                    clock: Clock, sleeping: seq<seq<nat>>)
    requires Timed(modulus, active, tick, tick + 1, wake, generic, clock) && SleepOk(generic, sleeping, wake)
    requires tick + 1 == modulus
    ensures sleeping[active] == []
  {
    if sleeping[active] != [] {
      HasMember(sleeping[active]);
      assert false;
    }
  }

  lemma HasMember(s: seq<nat>)
    requires s != []
    ensures exists id :: id in s
  {
    assert s[0] in s;
  }

  /** One tick, with the lists changing places when the counter wraps, keeps every due time. */
  lemma TickKeepsTime(modulus: nat, active: nat, tick: nat, wake: map<nat, nat>, generic: map<nat, Place>, clock: Clock)
    requires Timed(modulus, active, tick, tick + 1, wake, generic, clock)
    ensures After(clock, Tick) == Some(clock.(now := clock.now + 1))
    ensures var next := clock.(now := clock.now + 1);
            if tick + 1 == modulus then Timed(modulus, 1 - active, 0, 0, wake, generic, next)
            else Timed(modulus, active, tick + 1, tick + 1, wake, generic, next)
  {
  }

  // How far the counter is behind, as unsigned subtraction computes it.
  function Behind(tick: nat, to: nat, modulus: nat): nat
    requires tick < modulus
  {
    if tick <= to then to - tick else to + modulus - tick
  }

  lemma BehindWraps(tick: nat, to: nat, modulus: nat)
    requires tick < modulus && to < modulus
    ensures Behind(tick, to, modulus) == (to - tick) % modulus
  {
  }

  function NextTick(tick: nat, modulus: nat): nat {
    if tick + 1 == modulus then 0 else tick + 1
  }

  lemma WrapOnce(a: nat, b: nat, modulus: nat)
    requires a < modulus && b < modulus
    ensures (a + b) % modulus == if a + b < modulus then a + b else a + b - modulus
  {
  }

  /** A delay below the counter's range is due exactly that much later, wrapped or not. */
  lemma SleepKeepsTime(modulus: nat, active: nat, tick: nat, wake: map<nat, nat>, generic: map<nat, Place>,
                       clock: Clock, id: nat, ticks: nat)
    requires Timed(modulus, active, tick, tick + 1, wake, generic, clock)
    requires id in generic && !generic[id].Asleep? && 0 < ticks < modulus
    ensures var at := (tick + ticks) % modulus; var list := if at < tick then 1 - active else active;
            Timed(modulus, active, tick, tick + 1, wake[id := at], generic[id := Asleep(list)],
                  clock.(due := clock.due[id := clock.now + ticks]))
  {
    WrapOnce(tick, ticks, modulus);
    var at := (tick + ticks) % modulus;
    var list := if at < tick then 1 - active else active;
    var w, g, d := wake[id := at], generic[id := Asleep(list)], clock.due[id := clock.now + ticks];
    assert id !in clock.due;
    forall x | x in d && x != id ensures w[x] == wake[x] && g[x] == generic[x] && d[x] == clock.due[x] {
    }
  }

  lemma LandKeepsTime(modulus: nat, active: nat, tick: nat, bound: nat, wake: map<nat, nat>, generic: map<nat, Place>,
                      clock: Clock, id: nat, to: Place)
    requires Timed(modulus, active, tick, bound, wake, generic, clock)
    requires id in generic && !generic[id].Asleep? && !to.Asleep?
    ensures Timed(modulus, active, tick, bound, wake, generic[id := to], clock)
  {
  }

  lemma Awake(modulus: nat, active: nat, tick: nat, bound: nat, wake: map<nat, nat>, generic: map<nat, Place>,
              event: map<nat, Post>, clock: Clock, id: nat)
    requires Timed(modulus, active, tick, bound, wake, generic, clock) && Linked(event, clock)
    requires id in generic && !generic[id].Asleep? && id in event
    ensures active < 2 && id !in clock.due && event[id] == Free
  {
  }

  lemma WakeKeepsTime(modulus: nat, active: nat, tick: nat, bound: nat, wake: map<nat, nat>, generic: map<nat, Place>,
                      clock: Clock, id: nat, to: Place)
    requires Timed(modulus, active, tick, bound, wake, generic, clock) && !to.Asleep?
    ensures Timed(modulus, active, tick, bound, wake, generic[id := to], Woken(clock, id))
  {
  }

  /** What an interrupt can see and change. */
  datatype Doors = Doors(event: map<nat, Post>, pending: seq<nat>, lists: nat, clock: Clock, trace: seq<Mark>)

  ghost predicate Interrupted(a: Doors, b: Doors) {
    && a.trace <= b.trace && a.pending <= b.pending && a.lists == b.lists
    && b.clock.now == a.clock.now && b.clock.due == a.clock.due && a.clock.signalled <= b.clock.signalled
    && b.event.Keys == a.event.Keys
    && (forall id :: id in a.event && a.event[id] == Free ==> b.event[id] == Free)
    && (forall id :: id in b.clock.signalled - a.clock.signalled ==> id in b.event && b.event[id] == Pending)
    && (forall id :: id in a.event && a.event[id] == Pending ==> b.event[id] == Pending)
  }

  lemma InterruptedTwice(a: Doors, b: Doors, c: Doors)
    requires Interrupted(a, b) && Interrupted(b, c)
    ensures Interrupted(a, c)
  {
  }

  lemma StaysHeld(a: Doors, b: Doors, id: nat)
    requires Interrupted(a, b)
    ensures Held(a.event, a.clock) ==> Held(b.event, b.clock)
    ensures HeldBut(a.event, a.clock, id) ==> HeldBut(b.event, b.clock, id)
    ensures id in a.event && a.event[id] == Free ==> id in b.event && b.event[id] == Free
    ensures id in a.clock.signalled ==> id in b.clock.signalled
    ensures id in a.clock.due ==> id in b.clock.due
    ensures a.pending != [] ==> b.pending != [] && b.pending[0] == a.pending[0]
    ensures a.trace <= b.trace && a.pending <= b.pending && a.lists == b.lists
    ensures b.clock.now == a.clock.now && b.clock.due == a.clock.due
  {
  }

  // The generic items and the time before and after some of the scheduler's work.
  datatype Shot = Shot(trace: seq<Mark>, generic: map<nat, Place>, ready: seq<List>, lists: nat, now: nat)

  /** The trace grows, nobody stops being ready or moves from one sleep to another, and of the same priority
      nobody is overtaken. */
  ghost predicate Onward(a: Shot, b: Shot) {
    && a.trace <= b.trace && a.lists == b.lists && a.now <= b.now
    && |a.ready| == |b.ready| && (forall p | 0 <= p < |a.ready| :: Queued(a.ready[p], b.ready[p]))
    && (forall id <- a.generic :: id in b.generic && (b.generic[id] == a.generic[id] || b.generic[id].Ready?))
    && (forall id <- a.generic :: a.generic[id].Ready? ==> b.generic[id] == a.generic[id])
    && (forall id <- b.generic :: id in a.generic)
  }

  // Whoever was in the pending list still is, or has been readied.
  ghost predicate Served(readied: seq<nat>, pending: seq<nat>, generic: map<nat, Place>) {
    forall id <- readied :: id in pending || (id in generic && generic[id].Ready?)
  }

  lemma ServedHead(readied: seq<nat>, pending: seq<nat>, rest: seq<nat>, generic: map<nat, Place>, p: nat)
    requires Served(readied, pending, generic) && pending != [] && pending[1..] <= rest
    ensures Served(readied, rest, generic[pending[0] := Ready(p)])
  {
    assert pending == [pending[0]] + pending[1..];
  }

  lemma Fewer(due: map<nat, nat>, id: nat)
    requires id in due
    ensures |due - {id}| < |due|
  {
    assert due.Keys == (due - {id}).Keys + {id};
    assert |due.Keys| == |(due - {id}).Keys| + 1;
  }

  lemma ServedStill(readied: seq<nat>, a: Shot, b: Shot)
    requires Served(readied, [], a.generic) && Onward(a, b)
    ensures Served(readied, [], b.generic)
  {
  }

  lemma OnwardStart(a: Shot, b: Shot)
    requires a.trace <= b.trace && a.lists == b.lists && a.now <= b.now && b.generic == a.generic
    requires b.ready == a.ready
    ensures Onward(a, b)
  {
  }

  lemma OnwardTwice(a: Shot, b: Shot, c: Shot)
    requires Onward(a, b) && Onward(b, c)
    ensures Onward(a, c)
  {
    hide Queued;
    forall p | 0 <= p < |a.ready| ensures Queued(a.ready[p], c.ready[p]) {
      QueuedTwice(a.ready[p], b.ready[p], c.ready[p]);
    }
  }

  lemma OnwardByOne(a: Shot, b: Shot, id: nat, p: nat)
    requires a.trace <= b.trace && a.lists == b.lists && a.now <= b.now
    requires id in a.generic && !a.generic[id].Ready? && b.generic == a.generic[id := Ready(p)]
    requires p < |a.ready| && a.ready[p].Valid() && b.ready == a.ready[p := a.ready[p].InsertEnd(id)]
    ensures Onward(a, b)
  {
    QueuedOne(a.ready[p], id);
    hide List.InsertEnd;
    assert forall q | 0 <= q < |a.ready| && q != p :: b.ready[q] == a.ready[q];
  }

  lemma InterruptedOnce(a: Doors, id: nat)
    requires id in a.event && a.event[id].Waiting?
    ensures Interrupted(a, Doors(a.event[id := Pending], a.pending + [id], a.lists,
                                 a.clock.(signalled := a.clock.signalled + {id}), a.trace + [Signal(id)]))
  {
  }

  lemma LinksAfterSleep(event: map<nat, Post>, clock: Clock, id: nat, due: nat, post: Post)
    requires Linked(event, clock) && Held(event, clock) && id in event && id !in clock.due && post != Pending
    ensures var c := clock.(due := clock.due[id := due]);
            Linked(event[id := post], c) && Held(event[id := post], c)
  {
  }

  lemma LinksAfterWake(event: map<nat, Post>, clock: Clock, id: nat)
    requires Linked(event, clock) && id in event
    ensures Linked(event[id := Free], Woken(clock, id))
    ensures HeldBut(event, clock, id) || Held(event, clock) ==> Held(event[id := Free], Woken(clock, id))
  {
  }

  lemma LinksAfterTick(event: map<nat, Post>, clock: Clock, now: nat)
    ensures Linked(event, clock) ==> Linked(event, clock.(now := now))
    ensures Held(event, clock) ==> Held(event, clock.(now := now))
  {
  }

  lemma PendingSleeps(modulus: nat, active: nat, tick: nat, wake: map<nat, nat>, generic: map<nat, Place>,
                      event: map<nat, Post>, clock: Clock, id: nat)
    requires Timed(modulus, active, tick, tick + 1, wake, generic, clock) && Linked(event, clock)
    requires Held(event, clock) && id in event && event[id] == Pending
    ensures id in clock.due && id in clock.signalled && id in generic && generic[id].Asleep?
    ensures Linked(event[id := Free], clock) && HeldBut(event[id := Free], clock, id)
  {
  }

  lemma EventAccepted(modulus: nat, active: nat, tick: nat, wake: map<nat, nat>, generic: map<nat, Place>,
                      clock: Clock, id: nat)
    requires Timed(modulus, active, tick, tick + 1, wake, generic, clock)
    requires id in clock.due && id in clock.signalled
    ensures After(clock, Event(id)) == Some(Woken(clock, id)) && id in generic && generic[id].Asleep?
  {
  }

  // The head of the current delayed list, once its wake time has come, is due exactly now.
  lemma HeadIsDue(modulus: nat, active: nat, tick: nat, wake: map<nat, nat>, generic: map<nat, Place>, clock: Clock,
                  sleeping: seq<seq<nat>>)
    requires Timed(modulus, active, tick, tick, wake, generic, clock) && SleepOk(generic, sleeping, wake)
    requires sleeping[active] != [] && wake[sleeping[active][0]] <= tick
    ensures var id := sleeping[active][0];
            && id in generic && generic[id] == Asleep(active)
            && After(clock, Timeout(id)) == Some(Woken(clock, id))
  {
    assert sleeping[active][0] in sleeping[active];
  }

  // Nobody else is due once the head of the current delayed list is not.
  lemma NobodyIsDue(modulus: nat, active: nat, tick: nat, wake: map<nat, nat>, generic: map<nat, Place>, clock: Clock,
                    sleeping: seq<seq<nat>>)
    requires Timed(modulus, active, tick, tick, wake, generic, clock) && SleepOk(generic, sleeping, wake)
    requires sleeping[active] == [] || tick < wake[sleeping[active][0]]
    ensures Timed(modulus, active, tick, tick + 1, wake, generic, clock)
  {
    forall id | id in clock.due && generic[id].list == active ensures tick + 1 <= wake[id] {
      assert id in sleeping[active];
      var i :| 0 <= i < |sleeping[active]| && sleeping[active][i] == id;
      assert wake[sleeping[active][0]] <= wake[sleeping[active][i]];
    }
  }

  lemma SleepLists(generic: map<nat, Place>, sleeping: seq<seq<nat>>, wake: map<nat, nat>, k: nat)
    requires SleepOk(generic, sleeping, wake) && k < 2
    ensures |sleeping| == 2 && (sleeping[k] != [] ==> sleeping[k][0] in wake)
  {
  }

  lemma TimedBounds(modulus: nat, active: nat, tick: nat, bound: nat, wake: map<nat, nat>, generic: map<nat, Place>,
                    clock: Clock)
    requires Timed(modulus, active, tick, bound, wake, generic, clock)
    ensures tick < modulus && active < 2
  {
  }

  lemma LowerTop(levels: nat, top: nat, priority: map<nat, nat>, generic: map<nat, Place>, ready: seq<List>)
    requires ReadyOk(levels, top, priority, generic, ready) && ready[top].items == []
    ensures top > 0 ==> ReadyOk(levels, top - 1, priority, generic, ready)
    ensures top == 0 ==> forall id <- generic :: !generic[id].Ready?
  {
    forall id | id in generic && generic[id].Ready? ensures priority[id] != top {
      assert id in ready[generic[id].priority].items;
    }
  }

  // Serving the next item of the highest list that is not empty.
  lemma ServeTop(levels: nat, top: nat, priority: map<nat, nat>, generic: map<nat, Place>, ready: seq<List>)
    requires ReadyOk(levels, top, priority, generic, ready) && ready[top].items != []
    ensures top < |ready| && ready[top].Valid()
    ensures ReadyOk(levels, top, priority, generic, ready[top := ready[top].Advance()])
    ensures ready[top].Advance().index > 0 && ready[top].Advance().Valid()
    ensures Holds(ready[top].items, generic, Ready(top))
    ensures var l := ready[top].Advance(); var id := l.items[l.index - 1];
            && ready[top].Serves(id, l)
            && id in generic && id in priority && generic[id] == Ready(top) && priority[id] == top
            && (forall other <- generic :: generic[other].Ready? ==>
                  other in priority && priority[other] <= priority[id])
  {
    ServingRotates(ready[top]);
    var l := ready[top].Advance();
    assert l.items[l.index - 1] in ready[top].items;
  }

  lemma HeadOfPending(event: map<nat, Post>, pending: seq<nat>, waiting: seq<seq<nat>>, order: map<nat, nat>)
    requires EventsOk(event, pending, waiting, order) && pending != []
    ensures pending[0] in event && event[pending[0]] == Pending
  {
    assert pending[0] in pending;
  }

  // The head waiter of an event list becomes pending and signalled.
  lemma SignalKeepsLinks(modulus: nat, active: nat, tick: nat, bound: nat, wake: map<nat, nat>,
                         generic: map<nat, Place>, event: map<nat, Post>, clock: Clock, id: nat)
    requires Timed(modulus, active, tick, bound, wake, generic, clock) && Linked(event, clock)
    requires id in event && event[id].Waiting?
    ensures id in generic && generic[id].Asleep?
    ensures After(clock, Signal(id)) == Some(clock.(signalled := clock.signalled + {id}))
    ensures var c := clock.(signalled := clock.signalled + {id});
            Timed(modulus, active, tick, bound, wake, generic, c) && Linked(event[id := Pending], c)
  {
  }

  // ---------------------------------------------------------------------------------------------
  // The scheduler

  class Scheduler {
    const modulus: nat                  // the range of TickType_t
    const levels: nat                   // configMAX_CO_ROUTINE_PRIORITIES

    // The control blocks: priority, the values of the two list items, and their containers.
    var priority: map<nat, nat>
    var wake: map<nat, nat>
    var order: map<nat, nat>
    var generic: map<nat, Place>
    var event: map<nat, Post>

    var ready: seq<List>                // pxReadyCoRoutineLists
    var sleeping: seq<seq<nat>>         // xDelayedCoRoutineList1 and 2
    var active: nat                     // which of them pxDelayedCoRoutineList points to
    var pending: seq<nat>               // xPendingReadyCoRoutineList
    var waiting: seq<seq<nat>>          // the event lists
    var top: nat                        // uxTopCoRoutineReadyPriority
    var current: Option<nat>            // pxCurrentCoRoutine
    var tick: nat                       // xCoRoutineTickCount
    var lastTick: nat                   // xLastTickCount
    var passed: nat                     // xPassedTicks

    // The event lists that interrupts will use, one entry for every place where one can happen.
    var script: seq<seq<nat>>

    ghost var trace: seq<Mark>
    ghost var clock: Clock

    ghost predicate Known()
      reads this
    {
      0 < modulus && BlocksOk(levels, priority, order, wake, generic, event, current)
    }

    /** What holds at every point where an interrupt can come. */
    ghost predicate Invariant(bound: nat)
      reads this
    {
      && Known()
      && ReadyOk(levels, top, priority, generic, ready)
      && SleepOk(generic, sleeping, wake)
      && EventsOk(event, pending, waiting, order)
      && Timed(modulus, active, tick, bound, wake, generic, clock)
      && Linked(event, clock)
      && Play(trace) == Some(clock)
    }

    /** What holds between calls: nobody is on the way from one list to another, nobody is late. */
    ghost predicate Valid()
      reads this
    {
      Invariant(tick + 1) && Placed(generic) && Held(event, clock) && lastTick == tick
    }

    // prvInitialiseCoRoutineLists
    constructor (modulus: nat, levels: nat, lists: nat, script: seq<seq<nat>>)
      requires 0 < modulus && 0 < levels
      ensures Valid() && current == None && trace == []
      ensures this.modulus == modulus && this.levels == levels && |waiting| == lists && this.script == script
    {
      this.modulus, this.levels, this.script := modulus, levels, script;
      priority, wake, order, generic, event := map[], map[], map[], map[], map[];
      ready, sleeping, active := seq(levels, _ => List([], 0)), [[], []], 0;
      pending, waiting := [], seq(lists, _ => []);
      top, current, tick, lastTick, passed := 0, None, 0, 0, 0;
      trace, clock := [], Clock(0, map[], {});
    }

    ghost method Record(m: Mark)
      requires Play(trace) == Some(clock) && After(clock, m).Some?
      modifies `trace, `clock
      ensures trace == old(trace) + [m] && Some(clock) == old(After(clock, m)) && Play(trace) == Some(clock)
    {
      PlayStep(trace, m);
      clock := After(clock, m).value;
      trace := trace + [m];
    }

    // -------------------------------------------------------------------------------------------
    // List moves

    // prvAddCoRoutineToReadyQueue
    method AddToReady(id: nat)
      requires Known() && ReadyOk(levels, top, priority, generic, ready) && SleepOk(generic, sleeping, wake)
      requires id in generic && generic[id] == Nowhere
      modifies `top, `ready, `generic
      ensures Known() && ReadyOk(levels, top, priority, generic, ready) && SleepOk(generic, sleeping, wake)
      ensures id in priority && generic == old(generic)[id := Ready(priority[id])]
      ensures LastInLine(old(ready), id, priority[id])
      ensures top == if priority[id] > old(top) then priority[id] else old(top)
    {
      BlockOf(levels, priority, order, wake, generic, event, current, id);
      BlocksMoved(levels, priority, order, wake, generic, event, current, id, Ready(priority[id]), Free, 0);
      JoinReady(levels, top, priority, generic, ready, id);
      BesideSleep(generic, sleeping, wake, id, Ready(priority[id]));
      hide SleepOk, BlocksOk;
      assert priority[id] < |ready| && ready[priority[id]].Valid();
      hide ReadyOk;
      if priority[id] > top { top := priority[id]; }
      ready := ready[priority[id] := ready[priority[id]].InsertEnd(id)];
      generic := generic[id := Ready(priority[id])];
    }

    // uxListRemove on the generic list item
    method RemoveGeneric(id: nat)
      requires Known() && ReadyOk(levels, top, priority, generic, ready) && SleepOk(generic, sleeping, wake)
      requires id in generic && generic[id] != Nowhere
      modifies `ready, `sleeping, `generic
      ensures Known() && ReadyOk(levels, top, priority, generic, ready) && SleepOk(generic, sleeping, wake)
      ensures generic == old(generic)[id := Nowhere]
      ensures old(generic[id]).Asleep? ==> ready == old(ready)
      ensures old(generic[id]).Asleep? ==> |sleeping[old(generic[id]).list]| == old(|sleeping[generic[id].list]|) - 1
    {
      BlockOf(levels, priority, order, wake, generic, event, current, id);
      BlocksMoved(levels, priority, order, wake, generic, event, current, id, Nowhere, Free, 0);
      hide BlocksOk;
      match generic[id]
      case Ready(p) =>
        assert id in ready[p].items;
        var i :| 0 <= i < |ready[p].items| && ready[p].items[i] == id;
        LeaveReady(levels, top, priority, generic, ready, id, i);
        BesideSleep(generic, sleeping, wake, id, Nowhere);
        hide ReadyOk, SleepOk;
        ready := ready[p := ready[p].Remove(i)];
        generic := generic[id := Nowhere];
      case Asleep(k) =>
        assert id in sleeping[k];
        var i :| 0 <= i < |sleeping[k]| && sleeping[k][i] == id;
        LeaveSleep(generic, sleeping, wake, id, i);
        BesideReady(levels, top, priority, generic, ready, id, Nowhere);
        hide ReadyOk, SleepOk;
        sleeping := sleeping[k := sleeping[k][..i] + sleeping[k][i + 1..]];
        generic := generic[id := Nowhere];
    }

    // uxListRemove on the event list item
    method RemoveEvent(id: nat)
      requires EventsOk(event, pending, waiting, order) && id in event && event[id] != Free
      modifies `event, `pending, `waiting
      ensures EventsOk(event, pending, waiting, order) && event == old(event)[id := Free]
      ensures |waiting| == old(|waiting|)
      ensures old(event[id]) == Pending ==> waiting == old(waiting)
      ensures old(event[id]) == Pending && old(pending[0]) == id ==> pending == old(pending[1..])
      ensures old(event[id]).Waiting? ==> pending == old(pending)
      ensures old(event[id]).Waiting? && old(waiting[event[id].list][0]) == id ==>
                waiting == old(waiting[event[id].list := waiting[event[id].list][1..]])
    {
      match event[id]
      case Pending =>
        assert id in pending;
        var i :| 0 <= i < |pending| && pending[i] == id;
        LeaveEvents(event, pending, waiting, order, id, i);
        assert pending[0] == id ==> i == 0;
        pending := pending[..i] + pending[i + 1..];
        event := event[id := Free];
      case Waiting(k) =>
        assert id in waiting[k];
        var i :| 0 <= i < |waiting[k]| && waiting[k][i] == id;
        LeaveEvents(event, pending, waiting, order, id, i);
        assert waiting[k][0] == id ==> i == 0;
        assert i == 0 ==> waiting[k][..i] + waiting[k][i + 1..] == waiting[k][1..];
        waiting := waiting[k := waiting[k][..i] + waiting[k][i + 1..]];
        event := event[id := Free];
    }

    // -------------------------------------------------------------------------------------------
    // Interrupts

    ghost function Seen(): Doors
      reads this
    {
      Doors(event, pending, |waiting|, clock, trace)
    }

    /** xCoRoutineRemoveFromEventList: the waiter of the highest priority is handed to the
        scheduler; an interrupt touches the event lists and the pending list only. */
    method RemoveFromEventList(k: nat, ghost bound: nat) returns (higher: bool)
      requires Invariant(bound) && k < |waiting| && waiting[k] != []
      modifies `event, `pending, `waiting, `trace, `clock
      ensures Invariant(bound) && Interrupted(old(Seen()), Seen())
      ensures var id := old(waiting[k][0]);
              && id in generic && generic[id].Asleep?
              && pending == old(pending) + [id] && waiting == old(waiting[k := waiting[k][1..]])
              && trace == old(trace) + [Signal(id)]
              && (forall other <- old(waiting[k]) :: other in priority && priority[other] <= priority[id])
              && current.Some? && (higher <==> priority[id] >= priority[current.value])
    {
      hide EventsOk, Timed, Linked, ReadyOk, SleepOk, Play, After, Interrupted;
      var id := waiting[k][0];
      HeadIsHighest(k);
      InterruptedOnce(Seen(), id);
      SignalKeepsLinks(modulus, active, tick, bound, wake, generic, event, clock, id);
      RemoveEvent(id);
      JoinPending(event, pending, waiting, order, id);
      event := event[id := Pending];
      pending := pending + [id];
      assert event == old(event)[id := Pending];
      Record(Signal(id));
      higher := priority[id] >= priority[current.value];
    }

    lemma HeadIsHighest(k: nat)
      requires Known() && EventsOk(event, pending, waiting, order) && k < |waiting| && waiting[k] != []
      ensures forall other <- waiting[k] :: other in priority && priority[other] <= priority[waiting[k][0]]
      ensures waiting[k][0] in event && event[waiting[k][0]] == Waiting(k) && waiting[k][0] in priority
    {
      assert Ascending(waiting[k], order) && Holds(waiting[k], event, Waiting(k));
      assert waiting[k][0] in waiting[k];
      forall other | other in waiting[k] ensures other in priority && priority[other] <= priority[waiting[k][0]] {
        var i :| 0 <= i < |waiting[k]| && waiting[k][i] == other;
      }
    }

    /** Whatever interrupts come at this point. Their own code has checked that its event list is
        not empty. */
    method Interrupt(ghost bound: nat)
      requires Invariant(bound)
      modifies `event, `pending, `waiting, `script, `trace, `clock
      ensures Invariant(bound) && Interrupted(old(Seen()), Seen())
    {
      if script == [] { return; }
      var lists := script[0];
      script := script[1..];
      for i := 0 to |lists|
        invariant Invariant(bound) && Interrupted(old(Seen()), Seen())
      {
        hide Scheduler.Invariant, Interrupted;
        if lists[i] < |waiting| && waiting[lists[i]] != [] {
          ghost var before := Seen();
          var higher := RemoveFromEventList(lists[i], bound);
          InterruptedTwice(old(Seen()), before, Seen());
        }
      }
    }

    // -------------------------------------------------------------------------------------------
    // Calls

    /** xCoRoutineCreate, once memory has been allocated for the control block `id`. */
    method Create(id: nat, wanted: nat)
      requires Valid() && id !in priority
      modifies `priority, `wake, `order, `generic, `event, `ready, `top, `current
      ensures Valid()
      ensures priority == old(priority)[id := if wanted >= levels then levels - 1 else wanted]
      ensures generic == old(generic)[id := Ready(priority[id])]
      ensures current == if old(current) == None then Some(id) else old(current)
    {
      hide ReadyOk, SleepOk, EventsOk, Timed, Linked, Held, Placed, Play, BlocksOk;
      assert 0 < levels by { LevelsPositive(levels, top, priority, generic, ready); }
      var p := if wanted >= levels then levels - 1 else wanted;
      PlacedAgain(generic, id, Ready(p));
      NewcomerBlocks(levels, priority, order, wake, generic, event, current, id, p);
      NewcomerTimed(modulus, active, tick, tick + 1, wake, generic, clock, id, Ready(p));
      FillBlock(id, p);
      AddToReady(id);
    }

    // The fields of a new control block, its items not yet in any list.
    method FillBlock(id: nat, p: nat)
      requires Known() && ReadyOk(levels, top, priority, generic, ready) && SleepOk(generic, sleeping, wake)
      requires EventsOk(event, pending, waiting, order) && Linked(event, clock) && Held(event, clock)
      requires id !in priority && p < levels
      modifies `priority, `wake, `order, `generic, `event, `current
      ensures Known() && ReadyOk(levels, top, priority, generic, ready) && SleepOk(generic, sleeping, wake)
      ensures EventsOk(event, pending, waiting, order) && Linked(event, clock) && Held(event, clock)
      ensures priority == old(priority)[id := p] && generic == old(generic)[id := Nowhere]
      ensures wake == old(wake)[id := 0]
      ensures current == if old(current) == None then Some(id) else old(current)
    {
      hide ReadyOk, SleepOk, EventsOk, Linked, Held, BlocksOk;
      NewcomerBlocks(levels, priority, order, wake, generic, event, current, id, p);
      NewcomerReady(levels, top, priority, generic, ready, id, p);
      NewcomerSleep(generic, sleeping, wake, id);
      NewcomerEvents(event, pending, waiting, order, id, levels - p);
      NewcomerLinks(event, clock, id);
      if current == None { current := Some(id); }
      priority, order := priority[id := p], order[id := levels - p];
      wake, generic, event := wake[id := 0], generic[id := Nowhere], event[id := Free];
    }

    /** vCoRoutineAddToDelayedList, called by the running co-routine; interrupts are off when it
        also waits for an event. */
    method AddToDelayedList(ticks: nat, list: Option<nat>)
      requires Valid() && current.Some? && current.value in generic && generic[current.value].Ready?
      requires 0 < ticks < modulus && (list.Some? ==> list.value < |waiting|)
      modifies `ready, `sleeping, `generic, `wake, `event, `waiting, `trace, `clock
      ensures Valid()
      ensures var id := current.value;
              && trace == old(trace) + [Sleep(id, ticks)]
              && (generic == old(generic)[id := Asleep(0)] || generic == old(generic)[id := Asleep(1)])
              && event == if list.Some? then old(event)[id := Waiting(list.value)] else old(event)
    {
      hide Scheduler.Known, ReadyOk, SleepOk, EventsOk, Timed, Linked, Held, Placed, Play, BlocksOk;
      var id := current.value;
      if list.Some? {
        Block(id, ticks, Waiting(list.value));
        InsertWaiting(id, list.value);
      } else {
        Block(id, ticks, Free);
        assert event[id := Free] == event;
      }
    }

    // From the ready list to the delayed list that its wake time belongs to.
    method Block(id: nat, ticks: nat, ghost post: Post)
      requires Invariant(tick + 1) && Placed(generic) && Held(event, clock)
      requires id in generic && generic[id].Ready? && 0 < ticks < modulus && post != Pending
      modifies `ready, `sleeping, `generic, `wake, `trace, `clock
      ensures Known() && ReadyOk(levels, top, priority, generic, ready) && SleepOk(generic, sleeping, wake)
      ensures Timed(modulus, active, tick, tick + 1, wake, generic, clock)
      ensures Placed(generic) && Play(trace) == Some(clock) && id in event && event[id] == Free
      ensures Linked(event[id := post], clock) && Held(event[id := post], clock)
      ensures trace == old(trace) + [Sleep(id, ticks)]
      ensures generic == old(generic)[id := Asleep(0)] || generic == old(generic)[id := Asleep(1)]
    {
      hide ReadyOk, SleepOk, EventsOk, Timed, Linked, Held, Placed, Play, BlocksOk;
      var at := (tick + ticks) % modulus;
      var to := if at < tick then 1 - active else active;
      BlockOf(levels, priority, order, wake, generic, event, current, id);
      SleepKeepsTime(modulus, active, tick, wake, generic, clock, id, ticks);
      Awake(modulus, active, tick, tick + 1, wake, generic, event, clock, id);
      LinksAfterSleep(event, clock, id, clock.now + ticks, post);
      PlacedAgain(generic, id, Asleep(to));
      RemoveGeneric(id);
      InsertGeneric(id, to, at);
      Record(Sleep(id, ticks));
    }

    // vListInsert of the generic list item, by its wake time.
    method InsertGeneric(id: nat, k: nat, at: nat)
      requires Known() && ReadyOk(levels, top, priority, generic, ready) && SleepOk(generic, sleeping, wake)
      requires k < 2 && id in generic && generic[id] == Nowhere
      modifies `sleeping, `generic, `wake
      ensures Known() && ReadyOk(levels, top, priority, generic, ready) && SleepOk(generic, sleeping, wake)
      ensures wake == old(wake)[id := at] && generic == old(generic)[id := Asleep(k)]
    {
      BlockOf(levels, priority, order, wake, generic, event, current, id);
      BlocksMoved(levels, priority, order, wake, generic, event, current, id, Asleep(k), Free, at);
      BlocksMoved(levels, priority, order, wake, generic[id := Asleep(k)], event, current, id, Asleep(k), Free, at);
      JoinSleep(generic, sleeping, wake, id, at, k);
      BesideReady(levels, top, priority, generic, ready, id, Asleep(k));
      hide ReadyOk, BlocksOk;
      var i := Slot(sleeping[k], wake, at);
      hide SleepOk, Slot;
      sleeping := sleeping[k := sleeping[k][..i] + [id] + sleeping[k][i..]];
      wake := wake[id := at];
      generic := generic[id := Asleep(k)];
    }

    // vListInsert of the event list item, by its fixed value.
    method InsertWaiting(id: nat, k: nat)
      requires Known() && EventsOk(event, pending, waiting, order)
      requires k < |waiting| && id in event && event[id] == Free
      modifies `waiting, `event
      ensures Known() && EventsOk(event, pending, waiting, order) && event == old(event)[id := Waiting(k)]
    {
      BlockOf(levels, priority, order, wake, generic, event, current, id);
      BlocksMoved(levels, priority, order, wake, generic, event, current, id, Nowhere, Waiting(k), 0);
      JoinWaiting(event, pending, waiting, order, id, k);
      hide BlocksOk;
      var i := Slot(waiting[k], order, order[id]);
      hide EventsOk, Slot;
      waiting := waiting[k := waiting[k][..i] + [id] + waiting[k][i..]];
      event := event[id := Waiting(k)];
    }

    ghost function Picture(): Shot
      reads this
    {
      Shot(trace, generic, ready, |waiting|, clock.now)
    }

    // Woken, off every list, and about to be put into its ready list.
    ghost predicate Rising(id: nat, bound: nat)
      reads this
    {
      && Invariant(bound) && Held(event, clock) && id in generic && generic[id] == Nowhere
      && Placed(generic[id := Ready(0)])
    }

    ghost predicate LastInLine(before: seq<List>, id: nat, p: nat)
      reads this
    {
      p < |before| && before[p].Valid() && ready == before[p := before[p].InsertEnd(id)]
    }

    method Land(id: nat, ghost bound: nat)
      requires Rising(id, bound)
      modifies `event, `pending, `waiting, `script, `trace, `clock, `generic, `ready, `top
      ensures Invariant(bound) && Placed(generic) && Held(event, clock)
      ensures Interrupted(old(Seen()), Seen())
      ensures id in priority && generic == old(generic)[id := Ready(priority[id])]
      ensures LastInLine(old(ready), id, priority[id])
    {
      hide LastInLine, ReadyOk, SleepOk, EventsOk, Timed, Linked, Held, Placed, Play, BlocksOk, Interrupted;
      ghost var before := Seen();
      Interrupt(bound);
      StaysHeld(before, Seen(), id);
      BlockOf(levels, priority, order, wake, generic, event, current, id);
      LandKeepsTime(modulus, active, tick, bound, wake, generic, clock, id, Ready(priority[id]));
      PlacedAtLast(generic, id, Ready(priority[id]));
      AddToReady(id);
    }

    // The critical section of prvCheckPendingReadyList.
    method TakePending() returns (id: nat)
      requires Invariant(tick + 1) && Placed(generic) && Held(event, clock) && pending != []
      modifies `event, `pending, `waiting
      ensures Invariant(tick + 1) && HeldBut(event, clock, id)
      ensures id == old(pending[0]) && pending == old(pending[1..]) && |waiting| == old(|waiting|)
      ensures id in event && event[id] == Free && id in clock.due && id in clock.signalled
    {
      hide ReadyOk, SleepOk, EventsOk, Timed, Linked, Held, HeldBut, Placed, Play, BlocksOk;
      id := pending[0];
      HeadOfPending(event, pending, waiting, order);
      PendingSleeps(modulus, active, tick, wake, generic, event, clock, id);
      BlockOf(levels, priority, order, wake, generic, event, current, id);
      BlocksMoved(levels, priority, order, wake, generic, event, current, id, Nowhere, Free, 0);
      RemoveEvent(id);
    }

    // The same with the interrupts that can come before and after it.
    method TakeHead() returns (id: nat)
      requires Invariant(tick + 1) && Placed(generic) && Held(event, clock) && pending != []
      modifies `event, `pending, `waiting, `script, `trace, `clock
      ensures Invariant(tick + 1) && HeldBut(event, clock, id) && id in event && event[id] == Free
      ensures id in generic && generic[id].Asleep? && After(clock, Event(id)) == Some(Woken(clock, id))
      ensures id == old(pending[0]) && old(pending[1..]) <= pending && |waiting| == old(|waiting|)
      ensures old(trace) <= trace && clock.now == old(clock.now) && clock.due == old(clock.due) && id in clock.due
    {
      hide ReadyOk, SleepOk, EventsOk, Timed, Linked, Held, HeldBut, Placed, Play, BlocksOk, Interrupted, After;
      ghost var before := Seen();
      Interrupt(tick + 1);
      StaysHeld(before, Seen(), before.pending[0]);
      id := TakePending();
      ghost var open := Seen();
      Interrupt(tick + 1);
      StaysHeld(open, Seen(), id);
      EventAccepted(modulus, active, tick, wake, generic, clock, id);
    }

    // Off the delayed list, with the mark that says why.
    method Rise(id: nat, ghost m: Mark, ghost bound: nat)
      requires Invariant(bound) && Placed(generic) && HeldBut(event, clock, id)
      requires id in event && event[id] == Free && id in generic && generic[id].Asleep?
      requires After(clock, m) == Some(Woken(clock, id))
      modifies `generic, `ready, `sleeping, `trace, `clock
      ensures Rising(id, bound) && ready == old(ready)
      ensures generic == old(generic)[id := Nowhere] && trace == old(trace) + [m] && clock == old(Woken(clock, id))
      ensures |sleeping[old(generic[id]).list]| == old(|sleeping[generic[id].list]|) - 1
    {
      hide ReadyOk, EventsOk, Timed, Linked, Held, HeldBut, Placed, Play, BlocksOk, After;
      WakeKeepsTime(modulus, active, tick, bound, wake, generic, clock, id, Nowhere);
      LinksAfterWake(event, clock, id);
      assert event[id := Free] == event;
      PlacedAgain(generic, id, Ready(0));
      RemoveGeneric(id);
      Record(m);
    }

    // The head of the pending list becomes ready.
    method ReadyPending()
      requires Valid() && pending != []
      modifies `event, `pending, `waiting, `script, `trace, `clock, `generic, `ready, `sleeping, `top
      ensures Valid() && Onward(old(Picture()), Picture()) && old(pending[1..]) <= pending
      ensures var id := old(pending[0]);
              && id in priority && id in old(clock.due) && generic == old(generic)[id := Ready(priority[id])]
              && clock.due == old(clock.due) - {id} && clock.now == old(clock.now)
    {
      hide ReadyOk, SleepOk, EventsOk, Timed, Linked, Held, HeldBut, Placed, Play, BlocksOk, Interrupted, After, Onward;
      var id := TakeHead();
      Rise(id, Event(id), tick + 1);
      ghost var up := Seen();
      Land(id, tick + 1);
      StaysHeld(up, Seen(), id);
      PlacedAgain(old(generic), id, Ready(priority[id]));
      OnwardByOne(old(Picture()), Picture(), id, priority[id]);
    }

    /** prvCheckPendingReadyList: everyone whom an interrupt has readied so far becomes ready, and
        so does everyone readied while this happens, until the list is found empty. */
    method CheckPending()
      requires Valid()
      modifies `event, `pending, `waiting, `script, `trace, `clock, `generic, `ready, `sleeping, `top
      ensures Valid() && Onward(old(Picture()), Picture()) && clock.now == old(clock.now)
      ensures Served(old(pending), [], generic)
    {
      hide Scheduler.Valid, Onward, Served;
      InterruptBetween(old(pending));
      while pending != []
        invariant Valid() && Onward(old(Picture()), Picture()) && clock.now == old(clock.now)
        invariant Served(old(pending), pending, generic)
        decreases |clock.due|
      {
        ghost var before := Picture();
        ghost var heads, due := pending, clock.due;
        ReadyPending();
        Fewer(due, heads[0]);
        OnwardTwice(old(Picture()), before, Picture());
        ServedHead(old(pending), heads, pending, before.generic, priority[heads[0]]);
        ghost var after := Picture();
        InterruptBetween(old(pending));
        OnwardTwice(old(Picture()), after, Picture());
      }
    }

    method InterruptBetween(ghost readied: seq<nat>)
      requires Valid()
      modifies `event, `pending, `waiting, `script, `trace, `clock
      ensures Valid() && Onward(old(Picture()), Picture()) && old(pending) <= pending
      ensures clock.now == old(clock.now) && clock.due == old(clock.due)
      ensures Served(readied, old(pending), generic) ==> Served(readied, pending, generic)
      ensures Served(old(pending), pending, generic)
    {
      hide ReadyOk, SleepOk, EventsOk, Timed, Linked, Held, HeldBut, Placed, Play, BlocksOk, Interrupted;
      ghost var before := Seen();
      Interrupt(tick + 1);
      StaysHeld(before, Seen(), 0);
    }

    // The critical section of prvCheckDelayedList.
    method RiseTimedOut(id: nat)
      requires Invariant(tick) && Placed(generic) && Held(event, clock)
      requires id in generic && generic[id] == Asleep(active) && After(clock, Timeout(id)) == Some(Woken(clock, id))
      modifies `event, `pending, `waiting, `generic, `ready, `sleeping, `trace, `clock
      ensures Rising(id, tick) && |waiting| == old(|waiting|) && ready == old(ready)
      ensures generic == old(generic)[id := Nowhere]
      ensures trace == old(trace) + [Timeout(id)] && clock == old(Woken(clock, id))
      ensures |sleeping[active]| == old(|sleeping[active]|) - 1
    {
      hide ReadyOk, EventsOk, Timed, Linked, Held, HeldBut, Placed, Play, BlocksOk, After;
      WakeKeepsTime(modulus, active, tick, tick, wake, generic, clock, id, Nowhere);
      BlockOf(levels, priority, order, wake, generic, event, current, id);
      LinksAfterWake(event, clock, id);
      PlacedAgain(generic, id, Ready(0));
      RemoveGeneric(id);
      ForgetEvent(id);
      Record(Timeout(id));
    }

    // If the co-routine was waiting for an event too, it no longer is.
    method ForgetEvent(id: nat)
      requires Known() && EventsOk(event, pending, waiting, order) && id in event
      modifies `event, `pending, `waiting
      ensures Known() && EventsOk(event, pending, waiting, order) && event == old(event)[id := Free]
      ensures |waiting| == old(|waiting|)
    {
      hide EventsOk, BlocksOk;
      BlockOf(levels, priority, order, wake, generic, event, current, id);
      BlocksMoved(levels, priority, order, wake, generic, event, current, id, Nowhere, Free, 0);
      if event[id] != Free {
        RemoveEvent(id);
      } else {
        assert event[id := Free] == event;
      }
    }

    // The head of the current delayed list, whose time has come, becomes ready.
    method WakeHead()
      requires Invariant(tick) && Placed(generic) && Held(event, clock)
      requires active < 2 && |sleeping| == 2 && sleeping[active] != []
      requires sleeping[active][0] in wake && wake[sleeping[active][0]] <= tick
      modifies `event, `pending, `waiting, `script, `trace, `clock, `generic, `ready, `sleeping, `top
      ensures Invariant(tick) && Placed(generic) && Held(event, clock) && Onward(old(Picture()), Picture())
      ensures |sleeping| == 2 && |sleeping[active]| < old(|sleeping[active]|) && clock.now == old(clock.now)
    {
      hide ReadyOk, SleepOk, EventsOk, Timed, Linked, Held, Placed, Play, BlocksOk, Interrupted, After, Onward;
      var id := sleeping[active][0];
      ghost var before := Seen();
      Interrupt(tick);
      StaysHeld(before, Seen(), id);
      HeadIsDue(modulus, active, tick, wake, generic, clock, sleeping);
      RiseTimedOut(id);
      ghost var up := Seen();
      Land(id, tick);
      StaysHeld(up, Seen(), id);
      PlacedAgain(old(generic), id, Ready(priority[id]));
      OnwardByOne(old(Picture()), Picture(), id, priority[id]);
      SleepLists(generic, sleeping, wake, active);
    }

    /** One co-routine tick: the delayed lists change places when the counter wraps, and then
        everybody whose time has come is woken. */
    method OneTick()
      requires Invariant(tick + 1) && Placed(generic) && Held(event, clock)
      modifies `event, `pending, `waiting, `script, `trace, `clock, `generic, `ready, `sleeping, `top, `tick, `active
      ensures Invariant(tick + 1) && Placed(generic) && Held(event, clock) && Onward(old(Picture()), Picture())
      ensures tick == NextTick(old(tick), modulus) && clock.now == old(clock.now) + 1
    {
      hide ReadyOk, SleepOk, EventsOk, Timed, Linked, Held, Placed, Play, BlocksOk, After, Onward;
      Advance();
      OnwardStart(old(Picture()), Picture());
      while sleeping[active] != []
        invariant Invariant(tick) && Placed(generic) && Held(event, clock) && Onward(old(Picture()), Picture())
        invariant |sleeping| == 2 && active < 2
        invariant tick == NextTick(old(tick), modulus) && clock.now == old(clock.now) + 1
        decreases |sleeping[active]|
      {
        SleepLists(generic, sleeping, wake, active);
        if tick < wake[sleeping[active][0]] { break; }
        ghost var before := Picture();
        WakeHead();
        OnwardTwice(old(Picture()), before, Picture());
      }
      NobodyIsDue(modulus, active, tick, wake, generic, clock, sleeping);
    }

    // The counter moves on; on a wrap pxDelayedCoRoutineList and pxOverflowDelayedCoRoutineList swap.
    method Advance()
      requires Invariant(tick + 1) && Held(event, clock)
      modifies `trace, `clock, `tick, `active
      ensures Invariant(tick) && Held(event, clock) && |sleeping| == 2 && active < 2
      ensures trace == old(trace) + [Tick] && clock == old(clock).(now := old(clock.now) + 1)
      ensures tick == NextTick(old(tick), modulus)
      ensures tick == 0 ==> sleeping[1 - active] == []
    {
      hide ReadyOk, SleepOk, EventsOk, Timed, Linked, Held, Play, BlocksOk, After;
      TimedBounds(modulus, active, tick, tick + 1, wake, generic, clock);
      SleepLists(generic, sleeping, wake, active);
      TickKeepsTime(modulus, active, tick, wake, generic, clock);
      LinksAfterTick(event, clock, clock.now + 1);
      if tick + 1 == modulus {
        EmptyAtSwap(modulus, active, tick, wake, generic, clock, sleeping);
        tick := 0;
        active := 1 - active;
      } else {
        tick := tick + 1;
      }
      Record(Tick);
    }

    /** prvCheckDelayedList: as many co-routine ticks as task ticks have passed, modulo the range of
        the counters; each of them wakes exactly those that are due at that tick. */
    method CheckDelayed(taskTicks: nat)
      requires Valid() && taskTicks < modulus
      modifies `event, `pending, `waiting, `script, `trace, `clock, `generic, `ready, `sleeping, `top, `tick, `active,
               `passed, `lastTick
      ensures Valid() && Onward(old(Picture()), Picture()) && tick == taskTicks
      ensures clock.now == old(clock.now) + (taskTicks - old(tick)) % modulus
    {
      hide ReadyOk, SleepOk, EventsOk, Timed, Linked, Held, Placed, Play, BlocksOk, Onward;
      TimedBounds(modulus, active, tick, tick + 1, wake, generic, clock);
      BehindWraps(lastTick, taskTicks, modulus);
      passed := (taskTicks - lastTick) % modulus;
      OnwardStart(old(Picture()), Picture());
      TickOften(taskTicks, old(Picture()));
      lastTick := tick;
    }

    method TickOften(ghost taskTicks: nat, ghost from: Shot)
      requires Invariant(tick + 1) && Placed(generic) && Held(event, clock) && Onward(from, Picture())
      requires tick < modulus && taskTicks < modulus && passed == Behind(tick, taskTicks, modulus)
      modifies `event, `pending, `waiting, `script, `trace, `clock, `generic, `ready, `sleeping, `top, `tick, `active,
               `passed
      ensures Invariant(tick + 1) && Placed(generic) && Held(event, clock) && Onward(from, Picture())
      ensures tick == taskTicks && clock.now == old(clock.now) + old(passed)
    {
      hide ReadyOk, SleepOk, EventsOk, Timed, Linked, Held, Placed, Play, BlocksOk, Onward;
      while passed > 0
        invariant Invariant(tick + 1) && Placed(generic) && Held(event, clock) && Onward(from, Picture())
        invariant tick < modulus && passed == Behind(tick, taskTicks, modulus)
        invariant clock.now + passed == old(clock.now) + old(passed)
      {
        passed := passed - 1;
        ghost var before := Picture();
        OneTick();
        OnwardTwice(from, before, Picture());
      }
    }

    // The loop that finds the highest priority with a ready co-routine.
    method FindTop() returns (found: bool)
      requires ReadyOk(levels, top, priority, generic, ready)
      modifies `top
      ensures ReadyOk(levels, top, priority, generic, ready) && top < |ready|
      ensures if found then ready[top].items != [] else forall id <- generic :: !generic[id].Ready?
    {
      while ready[top].items == []
        invariant ReadyOk(levels, top, priority, generic, ready)
        decreases top
      {
        LowerTop(levels, top, priority, generic, ready);
        if top == 0 { return false; }
        top := top - 1;
      }
      return true;
    }

    /** vCoRoutineSchedule, up to the call of the co-routine it has chosen: of those of the highest
        priority the one whose turn it is in `lines`, where all who have become ready stand behind those who
        were ready before. */
    method Schedule(taskTicks: nat) returns (next: Option<nat>, ghost lines: seq<List>)
      requires Valid() && taskTicks < modulus
      modifies `event, `pending, `waiting, `script, `trace, `clock, `generic, `ready, `sleeping, `top, `tick, `active,
               `passed, `lastTick, `current
      ensures Valid() && Onward(old(Picture()), Picture().(ready := lines)) && tick == taskTicks
      ensures clock.now == old(clock.now) + (taskTicks - old(tick)) % modulus
      ensures Served(old(pending), [], generic)
      ensures next == None ==> ready == lines
      ensures next == None <==> forall id <- generic :: !generic[id].Ready?
      ensures next == None ==> current == old(current)
      ensures next.Some? ==>
                && current == next && next.value in generic && next.value in priority
                && generic[next.value] == Ready(priority[next.value])
                && (forall id <- generic :: generic[id].Ready? ==>
                      id in priority && priority[id] <= priority[next.value])
      ensures next.Some? ==> var p := priority[next.value];
                             && p < |lines| && |ready| == |lines| && ready == lines[p := ready[p]]
                             && lines[p].Serves(next.value, ready[p]) && Holds(lines[p].items, generic, Ready(p))
    {
      hide ReadyOk, SleepOk, EventsOk, Timed, Linked, Held, Placed, Play, BlocksOk, Onward, Served,
        List.Serves, Holds;
      CheckPending();
      ghost var between := Picture();
      CheckDelayed(taskTicks);
      OnwardTwice(old(Picture()), between, Picture());
      ServedStill(old(pending), between, Picture());
      lines := ready;
      next := Choose();
    }

    method Choose() returns (next: Option<nat>)
      requires Valid()
      modifies `ready, `top, `current
      ensures Valid()
      ensures next == None <==> forall id <- generic :: !generic[id].Ready?
      ensures next == None ==> current == old(current)
      ensures next.Some? ==>
                && current == next && next.value in generic && next.value in priority
                && generic[next.value] == Ready(priority[next.value])
                && (forall id <- generic :: generic[id].Ready? ==>
                      id in priority && priority[id] <= priority[next.value])
      ensures next.Some? ==> var p := priority[next.value];
                             && p < |ready| == old(|ready|) && ready == old(ready)[p := ready[p]]
                             && old(ready[p]).Serves(next.value, ready[p])
                             && Holds(old(ready[p].items), generic, Ready(p))
      ensures next == None ==> ready == old(ready)
    {
      hide ReadyOk, SleepOk, EventsOk, Timed, Linked, Held, Placed, Play, BlocksOk;
      var found := FindTop();
      if !found { return None; }
      ServeTop(levels, top, priority, generic, ready);
      hide List.Serves, List.Advance, List.Ring, Holds;
      ghost var id := ready[top].Advance().items[ready[top].Advance().index - 1];
      BlocksMoved(levels, priority, order, wake, generic, event, current, id, Nowhere, Free, 0);
      ready := ready[top := ready[top].Advance()];
      next := Some(ready[top].items[ready[top].index - 1]);
      current := next;
    }
  }
}
