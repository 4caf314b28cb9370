/** Event groups (FreeRTOS/src/event_groups.c): tasks wait for any or all of some bits, setting
    bits releases every task whose condition they meet, and a rendezvous is a wait that also sets. */
module EventGroups {
  import opened Wrappers

  // A 32-bit event word as the set of the bit numbers that are 1: `|` is +, `&` is *, `& ~` is -.
  type Bits = set<nat>

  const CLEAR_ON_EXIT: Bits := {24}
  const UNBLOCKED: Bits := {25}
  const WAIT_FOR_ALL: Bits := {26}
  const CONTROL: Bits := {24, 25, 26, 27, 28, 29, 30, 31}

  // What a task asks for: some bits, whether it needs them all, whether they are cleared for it.
  datatype Request = Request(bits: Bits, all: bool, clear: bool) {
    predicate Valid() { bits * CONTROL == {} && bits != {} }

    /** The value of the task's event list item while it waits. */
    function Item(): Bits {
      bits + (if clear then CLEAR_ON_EXIT else {}) + (if all then WAIT_FOR_ALL else {})
    }
  }

  /** In numbers: the eight bits from 24 on are not the caller's, and an item says with bit 24 that the bits are
      to be cleared and with bit 26 that all of them are needed. */
  lemma BitNumbers(r: Request)
    ensures r.Valid() <==> r.bits != {} && forall b <- r.bits :: !(24 <= b < 32)
    ensures forall b :: b in r.Item() <==> b in r.bits || (b == 24 && r.clear) || (b == 26 && r.all)
    ensures UNBLOCKED == {25} && forall b :: b in CONTROL <==> 24 <= b < 32
  {
    if r.bits * CONTROL == {} {
      forall b | b in r.bits ensures b !in CONTROL {
        assert b in CONTROL ==> b in r.bits * CONTROL;
      }
    }
  }

  /** prvTestWaitCondition. */
  predicate Met(current: Bits, bits: Bits, all: bool) {
    if all then current * bits == bits else current * bits != {}
  }

  // The same test on a packed list item, as the loop of xEventGroupSetBits makes it.
  predicate ItemMet(current: Bits, item: Bits) {
    Met(current, item - CONTROL, item * WAIT_FOR_ALL != {})
  }

  function ItemClears(item: Bits): Bits {
    if item * CLEAR_ON_EXIT != {} then item - CONTROL else {}
  }

  lemma ItemUnpacks(r: Request)
    requires r.Valid()
    ensures r.Item() - CONTROL == r.bits && r.Item() * UNBLOCKED == {}
    ensures r.Item() * WAIT_FOR_ALL != {} <==> r.all
    ensures r.Item() * CLEAR_ON_EXIT != {} <==> r.clear
  {
    NoControl(r.bits);
    if r.all { assert 26 in r.Item() * WAIT_FOR_ALL; }
    if r.clear { assert 24 in r.Item() * CLEAR_ON_EXIT; }
  }

  datatype Waiter = Waiter(task: nat, item: Bits)

  /** The group, and what every task that has been taken off its list will find in its item. */
  datatype Group = Group(bits: Bits, waiters: seq<Waiter>, found: map<nat, Bits>)

  // ---------------------------------------------------------------------------------------------
  // Setting bits

  function Released(waiters: seq<Waiter>, current: Bits): seq<Waiter> {
    if |waiters| == 0 then []
    else (if ItemMet(current, waiters[0].item) then [waiters[0]] else []) + Released(waiters[1..], current)
  }

  function Kept(waiters: seq<Waiter>, current: Bits): seq<Waiter> {
    if |waiters| == 0 then []
    else (if ItemMet(current, waiters[0].item) then [] else [waiters[0]]) + Kept(waiters[1..], current)
  }

  function ClearMask(released: seq<Waiter>): Bits {
    if |released| == 0 then {} else ItemClears(released[0].item) + ClearMask(released[1..])
  }

  function Tasks(waiters: seq<Waiter>): set<nat> {
    set w | w in waiters :: w.task
  }

  function Wake(found: map<nat, Bits>, released: seq<Waiter>, value: Bits): map<nat, Bits> {
    found + map t | t in Tasks(released) :: value
  }

  /** xEventGroupSetBits: everyone the new value satisfies is released with that same value, and
      only then are the bits they asked to have cleared taken away. */
  function AfterSet(g: Group, bits: Bits): Group {
    var current := g.bits + bits;
    var released := Released(g.waiters, current);
    Group(current - ClearMask(released), Kept(g.waiters, current), Wake(g.found, released, current + UNBLOCKED))
  }

  lemma {:induction false} ReleasedSnoc(waiters: seq<Waiter>, w: Waiter, current: Bits)
    ensures Released(waiters + [w], current) ==
            if ItemMet(current, w.item) then Released(waiters, current) + [w] else Released(waiters, current)
  {
    hide ItemMet;
    if |waiters| == 0 {
      assert waiters + [w] == [w];
    } else {
      ReleasedSnoc(waiters[1..], w, current);
      assert (waiters + [w])[1..] == waiters[1..] + [w];
      var first := if ItemMet(current, waiters[0].item) then [waiters[0]] else [];
      assert first + (Released(waiters[1..], current) + [w]) == first + Released(waiters[1..], current) + [w];
    }
  }

  lemma {:induction false} KeptSnoc(waiters: seq<Waiter>, w: Waiter, current: Bits)
    ensures Kept(waiters + [w], current) ==
            if ItemMet(current, w.item) then Kept(waiters, current) else Kept(waiters, current) + [w]
  {
    hide ItemMet;
    if |waiters| == 0 {
      assert waiters + [w] == [w];
    } else {
      KeptSnoc(waiters[1..], w, current);
      assert (waiters + [w])[1..] == waiters[1..] + [w];
      var first := if ItemMet(current, waiters[0].item) then [] else [waiters[0]];
      assert first + (Kept(waiters[1..], current) + [w]) == first + Kept(waiters[1..], current) + [w];
    }
  }

  lemma {:induction false} ClearMaskSnoc(released: seq<Waiter>, w: Waiter)
    ensures ClearMask(released + [w]) == ClearMask(released) + ItemClears(w.item)
  {
    if |released| == 0 {
      assert released + [w] == [w];
    } else {
      ClearMaskSnoc(released[1..], w);
      assert (released + [w])[1..] == released[1..] + [w];
    }
  }

  lemma WakeSnoc(found: map<nat, Bits>, released: seq<Waiter>, w: Waiter, value: Bits)
    ensures Wake(found, released + [w], value) == Wake(found, released, value)[w.task := value]
  {
    assert Tasks(released + [w]) == Tasks(released) + {w.task};
  }

  lemma WakeNobody(found: map<nat, Bits>, value: Bits)
    ensures Wake(found, [], value) == found
  {
  }

  lemma NoneSplit(current: Bits, found: map<nat, Bits>)
    ensures Released([], current) == [] && Kept([], current) == [] && ClearMask([]) == {}
    ensures Wake(found, [], current + UNBLOCKED) == found
  {
  }

  // The loop over the waiters has looked at the first `p` of them, and stands at position `i` of what is left.
  ghost predicate Midway(all: seq<Waiter>, p: nat, current: Bits, was: map<nat, Bits>,
                         waiters: seq<Waiter>, i: nat, toClear: Bits, found: map<nat, Bits>)
  {
    && p <= |all| && i == |Kept(all[..p], current)| && waiters == Kept(all[..p], current) + all[p..]
    && toClear == ClearMask(Released(all[..p], current))
    && found == Wake(was, Released(all[..p], current), current + UNBLOCKED)
  }

  lemma LoopStarts(all: seq<Waiter>, current: Bits, found: map<nat, Bits>)
    ensures Midway(all, 0, current, found, all, 0, {}, found)
  {
    NoneSplit(current, found);
    hide Released, Kept, ClearMask, Wake;
    assert all[..0] == [] && [] + all[0..] == all;
  }

  lemma LoopEnds(all: seq<Waiter>, p: nat, current: Bits, was: map<nat, Bits>,
                 waiters: seq<Waiter>, i: nat, toClear: Bits, found: map<nat, Bits>)
    requires Midway(all, p, current, was, waiters, i, toClear, found) && i >= |waiters|
    ensures waiters == Kept(all, current) && toClear == ClearMask(Released(all, current))
    ensures found == Wake(was, Released(all, current), current + UNBLOCKED)
  {
    hide Released, Kept, ClearMask, Wake;
    assert p == |all| && all[..p] == all;
    assert Kept(all, current) + [] == Kept(all, current);
  }

  // One round of the loop.
  lemma LoopStep(all: seq<Waiter>, p: nat, current: Bits, was: map<nat, Bits>,
                 waiters: seq<Waiter>, i: nat, toClear: Bits, found: map<nat, Bits>)
    requires Midway(all, p, current, was, waiters, i, toClear, found) && i < |waiters|
    ensures p < |all| &&
            var w, met := waiters[i], ItemMet(current, waiters[i].item);
            Midway(all, p + 1, current, was,
                   if met then waiters[..i] + waiters[i + 1..] else waiters, if met then i else i + 1,
                   toClear + (if met then ItemClears(w.item) else {}),
                   if met then found[w.task := current + UNBLOCKED] else found)
  {
    hide ItemMet, ItemClears, Released, Kept, ClearMask, Wake;
    var w := all[p];
    assert all[..p] + [w] == all[..p + 1] && all[p..] == [w] + all[p + 1..];
    ReleasedSnoc(all[..p], w, current);
    KeptSnoc(all[..p], w, current);
    ClearMaskSnoc(Released(all[..p], current), w);
    WakeSnoc(was, Released(all[..p], current), w, current + UNBLOCKED);
    TakeOut(Kept(all[..p], current), w, all[p + 1..]);
    assert toClear + {} == toClear;
  }

  lemma TakeOut(before: seq<Waiter>, w: Waiter, after: seq<Waiter>)
    ensures var list := before + ([w] + after);
            && list[|before|] == w && list[..|before|] + list[|before| + 1..] == before + after
            && list == before + [w] + after
  {
    var list := before + ([w] + after);
    assert list[|before| + 1..] == after && list[..|before|] == before;
  }

  /** The loop's tests on the control bits are the ones ItemMet and ItemClears describe. */
  lemma LoopTests(current: Bits, item: Bits)
    ensures var control, bits := item * CONTROL, item - CONTROL;
            && (ItemMet(current, item) <==>
                  if control * WAIT_FOR_ALL == {} then bits * current != {} else bits * current == bits)
            && ItemClears(item) == if control * CLEAR_ON_EXIT != {} then bits else {}
  {
    assert (item * CONTROL) * WAIT_FOR_ALL == item * WAIT_FOR_ALL;
    assert (item * CONTROL) * CLEAR_ON_EXIT == item * CLEAR_ON_EXIT;
    assert current * (item - CONTROL) == (item - CONTROL) * current;
  }

  /** Setting bits releases exactly the waiters that the old bits together with the new ones
      satisfy; each finds that combined value, the rest stay; and the bits that remain are the
      combined ones less everything the released tasks asked to have cleared. */
  lemma {:induction false} SplitMeaning(waiters: seq<Waiter>, current: Bits)
    ensures forall w :: w in Released(waiters, current) <==> w in waiters && ItemMet(current, w.item)
    ensures forall w :: w in Kept(waiters, current) <==> w in waiters && !ItemMet(current, w.item)
    ensures multiset(Released(waiters, current)) + multiset(Kept(waiters, current)) == multiset(waiters)
  {
    hide ItemMet;
    if |waiters| > 0 {
      var first, others := [waiters[0]], waiters[1..];
      SplitMeaning(others, current);
      assert waiters == first + others;
      assert Released(waiters, current) ==
             (if ItemMet(current, waiters[0].item) then first else []) + Released(others, current);
      assert Kept(waiters, current) ==
             (if ItemMet(current, waiters[0].item) then [] else first) + Kept(others, current);
      hide Released, Kept;
    }
  }

  lemma {:induction false} ClearMaskMeaning(released: seq<Waiter>, b: nat)
    ensures b in ClearMask(released) <==> exists w :: w in released && b in ItemClears(w.item)
  {
    hide ItemClears;
    if |released| > 0 {
      ClearMaskMeaning(released[1..], b);
      assert forall w :: w in released <==> w == released[0] || w in released[1..];
    }
  }

  lemma AfterSetMeaning(g: Group, bits: Bits)
    ensures var after, current := AfterSet(g, bits), g.bits + bits;
            && (forall w :: w in after.waiters <==> w in g.waiters && !ItemMet(current, w.item))
            && (forall w | w in g.waiters && ItemMet(current, w.item) ::
                  w.task in after.found && after.found[w.task] == current + UNBLOCKED)
            && (forall b :: b in after.bits <==>
                  b in current && !exists w :: w in g.waiters && ItemMet(current, w.item) && b in ItemClears(w.item))
  {
    var current := g.bits + bits;
    hide ItemMet, ItemClears, Released, Kept, ClearMask;
    SplitMeaning(g.waiters, current);
    var released := Released(g.waiters, current);
    forall b ensures b in ClearMask(released) <==>
                       exists w :: w in g.waiters && ItemMet(current, w.item) && b in ItemClears(w.item)
    {
      ClearMaskMeaning(released, b);
    }
    forall w | w in g.waiters && ItemMet(current, w.item) ensures w.task in Tasks(released) {
      assert w in released;
    }
  }

  /** The order of the waiting list does not matter. */
  lemma OrderIndependent(g: Group, h: Group, bits: Bits)
    requires g.bits == h.bits && g.found == h.found && multiset(g.waiters) == multiset(h.waiters)
    ensures var a, b := AfterSet(g, bits), AfterSet(h, bits);
            a.bits == b.bits && a.found == b.found && multiset(a.waiters) == multiset(b.waiters)
  {
    var current := g.bits + bits;
    hide ItemMet, ItemClears, Released, Kept, ClearMask;
    SplitMeaning(g.waiters, current);
    SplitMeaning(h.waiters, current);
    var r, r' := Released(g.waiters, current), Released(h.waiters, current);
    SameMembers(g.waiters, h.waiters);
    assert forall w :: w in r <==> w in r';
    forall b ensures b in ClearMask(r) <==> b in ClearMask(r') {
      ClearMaskMeaning(r, b);
      ClearMaskMeaning(r', b);
    }
    assert ClearMask(r) == ClearMask(r');
    assert Tasks(r) == Tasks(r');
    KeptCount(g.waiters, current);
    KeptCount(h.waiters, current);
    assert multiset(Kept(g.waiters, current)) == multiset(Kept(h.waiters, current));
  }

  lemma SameMembers(a: seq<Waiter>, b: seq<Waiter>)
    requires multiset(a) == multiset(b)
    ensures forall w :: w in a <==> w in b
  {
    assert forall w :: w in a <==> w in multiset(a);
    assert forall w :: w in b <==> w in multiset(b);
  }

  lemma {:induction false} KeptCount(waiters: seq<Waiter>, current: Bits)
    ensures forall w :: multiset(Kept(waiters, current))[w] ==
                        if ItemMet(current, w.item) then 0 else multiset(waiters)[w]
  {
    hide ItemMet;
    if |waiters| > 0 {
      KeptCount(waiters[1..], current);
      assert waiters == [waiters[0]] + waiters[1..];
    }
  }

  // ---------------------------------------------------------------------------------------------
  // Waiting

  /** The group together with what every task inside a blocking call is waiting for.  Such a task is
      on the waiting list until bits or a timeout take it off; then its item tells it which. */
  datatype System = System(group: Group, asks: map<nat, Request>)

  /** The first half of xEventGroupWaitBits, up to where the task blocks. */
  function AfterWait(s: System, task: nat, r: Request, mayBlock: bool): (System, Option<Bits>) {
    var g := s.group;
    if Met(g.bits, r.bits, r.all) then
      (s.(group := g.(bits := if r.clear then g.bits - r.bits else g.bits)), Some(g.bits))
    else if !mayBlock then (s, Some(g.bits))
    else (Block(s, task, r), None)
  }

  function Block(s: System, task: nat, r: Request): System {
    System(s.group.(waiters := s.group.waiters + [Waiter(task, r.Item())]), s.asks[task := r])
  }

  function Rendezvous(mask: Bits): Request { Request(mask, true, true) }

  /** The first half of xEventGroupSync. */
  function AfterSync(s: System, task: nat, toSet: Bits, mask: Bits, mayBlock: bool): (System, Option<Bits>) {
    var g := AfterSet(s.group, toSet);
    var reached := s.group.bits + toSet;
    if reached * mask == mask then (s.(group := g.(bits := g.bits - mask)), Some(reached))
    else if mayBlock then (Block(s.(group := g), task, Rendezvous(mask)), None)
    else (s.(group := g), Some(g.bits))
  }

  /** The kernel takes a task off the list because its time is up; its item stays as it was. */
  function AfterTimeout(s: System, i: nat): System
    requires i < |s.group.waiters|
  {
    var w := s.group.waiters[i];
    s.(group := s.group.(waiters := s.group.waiters[..i] + s.group.waiters[i + 1..],
                         found := s.group.found[w.task := w.item]))
  }

  /** The second half of both calls, once the task runs again. */
  function AfterResume(s: System, task: nat): (System, Bits)
    requires task in s.group.found && task in s.asks
  {
    var g, r := s.group, s.asks[task];
    var value := g.found[task];
    var rest := System(g.(found := g.found - {task}), s.asks - {task});
    if value * UNBLOCKED != {} then (rest, value - CONTROL)
    else
      (if Met(g.bits, r.bits, r.all) && r.clear then rest.(group := rest.group.(bits := g.bits - r.bits)) else rest,
       g.bits - CONTROL)
  }

  datatype Event =
    | Set(bits: Bits)
    | Clear(bits: Bits)
    | Wait(task: nat, request: Request, mayBlock: bool)
    | Sync(task: nat, bits: Bits, mask: Bits, mayBlock: bool)
    | Timeout(i: nat)
    | Resume(task: nat)

  /** Callers keep to usable bits, and only a task that is not already in a call makes one. */
  predicate Enabled(s: System, e: Event) {
    match e
    case Set(bits) => bits * CONTROL == {}
    case Clear(bits) => bits * CONTROL == {}
    case Wait(task, r, _) => r.Valid() && task !in s.asks
    case Sync(task, bits, mask, _) => bits * CONTROL == {} && Rendezvous(mask).Valid() && task !in s.asks
    case Timeout(i) => i < |s.group.waiters|
    case Resume(task) => task in s.group.found && task in s.asks
  }

  function Step(s: System, e: Event): System
    requires Enabled(s, e)
  {
    match e
    case Set(bits) => s.(group := AfterSet(s.group, bits))
    case Clear(bits) => s.(group := s.group.(bits := s.group.bits - bits))
    case Wait(task, r, mayBlock) => AfterWait(s, task, r, mayBlock).0
    case Sync(task, bits, mask, mayBlock) => AfterSync(s, task, bits, mask, mayBlock).0
    case Timeout(i) => AfterTimeout(s, i)
    case Resume(task) => AfterResume(s, task).0
  }

  // What a task taken off the list finds: bits that meet its request, or its item as it left it.
  predicate FindsRight(value: Bits, r: Request) {
    if value * UNBLOCKED != {} then Met(value - CONTROL, r.bits, r.all) else value == r.Item()
  }

  ghost predicate WaitersRight(s: System) {
    forall w | w in s.group.waiters ::
      w.task in s.asks && w.item == s.asks[w.task].Item() && !ItemMet(s.group.bits, w.item)
  }

  ghost predicate Distinct(waiters: seq<Waiter>) {
    forall i, j | 0 <= i < j < |waiters| :: waiters[i].task != waiters[j].task
  }

  /** No blocked task's condition is true of the bits; every task in a call is either blocked once
      or has found the answer that its request deserves. */
  ghost predicate Inv(s: System) {
    && s.group.bits * CONTROL == {}
    && (forall t | t in s.asks :: s.asks[t].Valid())
    && WaitersRight(s) && Distinct(s.group.waiters)
    && Tasks(s.group.waiters) !! s.group.found.Keys
    && Tasks(s.group.waiters) + s.group.found.Keys == s.asks.Keys
    && forall t | t in s.group.found :: FindsRight(s.group.found[t], s.asks[t])
  }

  lemma MetMonotonic(more: Bits, fewer: Bits, item: Bits)
    requires fewer <= more && ItemMet(fewer, item)
    ensures ItemMet(more, item)
  {
    var bits := item - CONTROL;
    assert fewer * bits <= more * bits;
  }

  lemma {:induction false} SplitDistinct(waiters: seq<Waiter>, current: Bits)
    requires Distinct(waiters)
    ensures Distinct(Kept(waiters, current))
    ensures Tasks(Released(waiters, current)) !! Tasks(Kept(waiters, current))
    ensures Tasks(Released(waiters, current)) + Tasks(Kept(waiters, current)) == Tasks(waiters)
  {
    hide ItemMet, Distinct, Tasks;
    if |waiters| > 0 {
      var w, rest := waiters[0], waiters[1..];
      assert waiters == [w] + rest;
      DistinctCons(w, rest);
      SplitDistinct(rest, current);
      TasksCons(w, rest);
      TasksCons(w, Released(rest, current));
      TasksCons(w, Kept(rest, current));
      DistinctCons(w, Kept(rest, current));
      assert [] + Released(rest, current) == Released(rest, current) && [] + Kept(rest, current) == Kept(rest, current);
    } else {
      NoTasks();
    }
  }

  lemma NoTasks()
    ensures Tasks([]) == {} && Distinct([])
  {
  }

  lemma DistinctCons(w: Waiter, rest: seq<Waiter>)
    ensures Distinct([w] + rest) <==> w.task !in Tasks(rest) && Distinct(rest)
  {
    var all := [w] + rest;
    assert all[0] == w && forall i | 0 <= i < |rest| :: all[i + 1] == rest[i];
    if Distinct(all) {
      forall x | x in rest ensures x.task != w.task {
        var i :| 0 <= i < |rest| && rest[i] == x;
        assert all[0].task != all[i + 1].task;
      }
      forall i, j | 0 <= i < j < |rest| ensures rest[i].task != rest[j].task {
        assert all[i + 1].task != all[j + 1].task;
      }
    }
    if w.task !in Tasks(rest) && Distinct(rest) {
      forall i, j | 0 <= i < j < |all| ensures all[i].task != all[j].task {
        assert all[j] == rest[j - 1] && rest[j - 1].task in Tasks(rest);
        if i > 0 { assert rest[i - 1].task != rest[j - 1].task; }
      }
    }
  }

  lemma TasksCons(w: Waiter, rest: seq<Waiter>)
    ensures Tasks([w] + rest) == {w.task} + Tasks(rest) && Tasks([] + rest) == Tasks(rest)
  {
  }

  lemma SetInv(s: System, bits: Bits)
    requires Inv(s) && bits * CONTROL == {}
    ensures Inv(s.(group := AfterSet(s.group, bits)))
  {
    hide ItemMet, ItemClears, Released, Kept, ClearMask, FindsRight;
    var g, current := s.group, s.group.bits + bits;
    var after := AfterSet(g, bits);
    AfterSetMeaning(g, bits);
    SplitMeaning(g.waiters, current);
    SplitDistinct(g.waiters, current);
    assert after.bits <= current;
    assert after.bits * CONTROL == {};
    forall w | w in after.waiters ensures !ItemMet(after.bits, w.item) {
      if ItemMet(after.bits, w.item) { MetMonotonic(current, after.bits, w.item); }
    }
    forall t | t in after.found ensures t in s.asks && FindsRight(after.found[t], s.asks[t]) {
      if t in Tasks(Released(g.waiters, current)) {
        var w :| w in Released(g.waiters, current) && w.task == t;
        ReleasedFinds(current, s.asks[t]);
      } else {
        assert t in g.found;
      }
    }
  }

  lemma NoControl(bits: Bits)
    requires bits * CONTROL == {}
    ensures bits - CONTROL == bits
  {
    forall b | b in bits ensures b !in CONTROL {
      assert b in CONTROL ==> b in bits * CONTROL;
    }
  }

  lemma ReleasedFinds(current: Bits, r: Request)
    requires r.Valid() && current * CONTROL == {} && ItemMet(current, r.Item())
    ensures FindsRight(current + UNBLOCKED, r)
  {
    ItemUnpacks(r);
    assert (current + UNBLOCKED) - CONTROL == current;
    assert 25 in (current + UNBLOCKED) * UNBLOCKED;
  }

  /** Taking bits away releases nobody, so it needs no look at the list. */
  lemma FewerBitsInv(s: System, bits: Bits)
    requires Inv(s)
    ensures Inv(s.(group := s.group.(bits := s.group.bits - bits)))
  {
    hide ItemMet, FindsRight;
    var fewer := s.group.bits - bits;
    forall w | w in s.group.waiters ensures !ItemMet(fewer, w.item) {
      if ItemMet(fewer, w.item) { MetMonotonic(s.group.bits, fewer, w.item); }
    }
    assert fewer * CONTROL == {};
  }

  lemma BlockInv(s: System, task: nat, r: Request)
    requires Inv(s) && r.Valid() && task !in s.asks && !Met(s.group.bits, r.bits, r.all)
    ensures Inv(Block(s, task, r))
  {
    hide FindsRight, ItemMet, Met, Request.Item, Request.Valid, Tasks;
    BlockedUnmet(s.group.bits, r);
    TasksSnoc(s.group.waiters, Waiter(task, r.Item()));
  }

  lemma TasksSnoc(waiters: seq<Waiter>, w: Waiter)
    ensures forall x :: x in waiters + [w] <==> x in waiters || x == w
    ensures Tasks(waiters + [w]) == Tasks(waiters) + {w.task}
    ensures forall x | x in waiters :: x.task in Tasks(waiters)
  {
  }

  lemma BlockedUnmet(current: Bits, r: Request)
    requires r.Valid()
    ensures ItemMet(current, r.Item()) <==> Met(current, r.bits, r.all)
  {
    ItemUnpacks(r);
  }

  lemma TimedOutFinds(r: Request)
    requires r.Valid()
    ensures FindsRight(r.Item(), r)
  {
    ItemUnpacks(r);
  }

  lemma TimeoutInv(s: System, i: nat)
    requires Inv(s) && i < |s.group.waiters|
    ensures Inv(AfterTimeout(s, i))
  {
    hide ItemMet, Request.Item, Request.Valid, Met, FindsRight, Tasks;
    var ws := s.group.waiters;
    var w, rest := ws[i], ws[..i] + ws[i + 1..];
    OneFewer(ws, i);
    TimedOutFinds(s.asks[w.task]);
  }

  // Taking one of several waiters off a list.
  lemma OneFewer(ws: seq<Waiter>, i: nat)
    requires i < |ws| && Distinct(ws)
    ensures var rest := ws[..i] + ws[i + 1..];
            && Distinct(rest) && Tasks(rest) == Tasks(ws) - {ws[i].task} && ws[i].task in Tasks(ws) && ws[i] in ws
            && forall x :: x in rest ==> x in ws && x.task != ws[i].task
  {
    var w, rest := ws[i], ws[..i] + ws[i + 1..];
    assert forall x :: x in ws <==> x in rest || x == w;
    assert forall x | x in rest :: x.task != w.task;
    assert Tasks(ws) == Tasks(rest) + {w.task};
  }

  lemma ResumeInv(s: System, task: nat)
    requires Inv(s) && task in s.group.found && task in s.asks
    ensures Inv(AfterResume(s, task).0)
  {
    hide ItemMet, Met, FindsRight;
    var rest := System(s.group.(found := s.group.found - {task}), s.asks - {task});
    assert forall w | w in s.group.waiters :: w.task in Tasks(s.group.waiters);
    assert Inv(rest);
    FewerBitsInv(rest, s.asks[task].bits);
  }

  lemma StepInv(s: System, e: Event)
    requires Inv(s) && Enabled(s, e)
    ensures Inv(Step(s, e))
  {
    hide Inv;
    match e {
      case Set(bits) => SetInv(s, bits);
      case Clear(bits) => FewerBitsInv(s, bits);
      case Wait(task, r, mayBlock) =>
        if Met(s.group.bits, r.bits, r.all) {
          FewerBitsInv(s, r.bits);
        } else if mayBlock {
          BlockInv(s, task, r);
        }
      case Sync(task, bits, mask, mayBlock) =>
        SetInv(s, bits);
        var t := s.(group := AfterSet(s.group, bits));
        SyncUnmet(s.group, bits, mask);
        if (s.group.bits + bits) * mask == mask {
          FewerBitsInv(t, mask);
        } else if mayBlock {
          BlockInv(t, task, Rendezvous(mask));
        }
      case Timeout(i) => TimeoutInv(s, i);
      case Resume(task) => ResumeInv(s, task);
    }
  }

  lemma SyncUnmet(g: Group, bits: Bits, mask: Bits)
    ensures (g.bits + bits) * mask != mask ==> !Met(AfterSet(g, bits).bits, mask, true)
  {
    AfterSetMeaning(g, bits);
    var after := AfterSet(g, bits);
    assert after.bits <= g.bits + bits;
    assert after.bits * mask <= (g.bits + bits) * mask <= mask;
  }

  function Run(s: System, events: seq<Event>): Option<System>
    decreases |events|
  {
    if |events| == 0 then Some(s)
    else if !Enabled(s, events[0]) then None
    else Run(Step(s, events[0]), events[1..])
  }

  /** A run takes its steps one after the other, as long as each of them may be taken. */
  lemma {:induction false} RunAppends(s: System, first: seq<Event>, e: Event)
    ensures Run(s, first + [e]) ==
            if Run(s, first).None? || !Enabled(Run(s, first).value, e) then None
            else Some(Step(Run(s, first).value, e))
    ensures Run(s, []) == Some(s)
    decreases |first|
  {
    hide Enabled, Step;
    if |first| == 0 {
      assert first + [e] == [e];
      if Enabled(s, e) { assert Run(Step(s, e), [e][1..]) == Some(Step(s, e)); }
    } else {
      assert (first + [e])[0] == first[0] && (first + [e])[1..] == first[1..] + [e];
      if Enabled(s, first[0]) { RunAppends(Step(s, first[0]), first[1..], e); }
    }
  }

  /** In every state that can be reached no blocked task's condition is true of the bits, and every
      task taken off the list will find what it asked for, or that its time was up. */
  lemma {:induction false} RunInv(s: System, events: seq<Event>)
    requires Inv(s)
    ensures Run(s, events).Some? ==> Inv(Run(s, events).value)
    decreases |events|
  {
    if |events| > 0 && Enabled(s, events[0]) {
      StepInv(s, events[0]);
      RunInv(Step(s, events[0]), events[1..]);
    }
  }

  /** A task that was released by bits returns a value that meets its request. */
  lemma ResumeMeaning(s: System, task: nat)
    requires Inv(s) && task in s.group.found && task in s.asks
    ensures var (after, value) := AfterResume(s, task);
            && value * CONTROL == {}
            && (s.group.found[task] * UNBLOCKED != {} ==>
                  Met(value, s.asks[task].bits, s.asks[task].all) && after.group.bits == s.group.bits)
            && (s.group.found[task] * UNBLOCKED == {} ==> value == s.group.bits)
  {
    NoControl(s.group.bits);
  }

  lemma MetMeaning(current: Bits, bits: Bits, all: bool)
    ensures Met(current, bits, all) <==>
              if all then forall b | b in bits :: b in current else exists b :: b in bits && b in current
  {
    assert forall b :: b in current * bits <==> b in bits && b in current;
  }

  /** A call that waits answers at once when its condition is met or it must not block, with the bits as
      they were, and then takes away just those it was told to; otherwise the task joins the end of the list
      and the bits stay. */
  lemma WaitMeaning(s: System, task: nat, r: Request, mayBlock: bool)
    ensures var (after, value) := AfterWait(s, task, r, mayBlock);
            var met := Met(s.group.bits, r.bits, r.all);
            && (forall b :: b in after.group.bits <==> b in s.group.bits && !(met && r.clear && b in r.bits))
            && after.group.found == s.group.found
            && (if met || !mayBlock
                then value == Some(s.group.bits) && after.group.waiters == s.group.waiters && after.asks == s.asks
                else value == None && after.group.waiters == s.group.waiters + [Waiter(task, r.Item())] &&
                     after.asks == s.asks[task := r])
  {
  }

  /** A condition that is met already is answered as if the task had blocked and been released at once. */
  lemma WaitAsIfBlocked(s: System, task: nat, r: Request, mayBlock: bool)
    requires Inv(s) && Enabled(s, Wait(task, r, mayBlock)) && Met(s.group.bits, r.bits, r.all)
    ensures var blocked := Block(s, task, r);
            var released := blocked.(group := AfterSet(blocked.group, {}));
            task in released.group.found &&
            var (after, value) := AfterResume(released, task);
            AfterWait(s, task, r, mayBlock) == (after, Some(value))
  {
    hide ItemMet, ItemClears, Released, Kept, ClearMask, Request.Item, Request.Valid, Met;
    var waiters, bits, w := s.group.waiters, s.group.bits, Waiter(task, r.Item());
    assert bits + {} == bits;
    PatientStay(waiters, bits);
    BlockedUnmet(bits, r);
    ReleasedSnoc(waiters, w, bits);
    KeptSnoc(waiters, w, bits);
    ClearMaskSnoc([], w);
    WakeSnoc(s.group.found, [], w, bits + UNBLOCKED);
    WakeNobody(s.group.found, bits + UNBLOCKED);
    ClearsAsked(r);
    Unblocked(bits);
    NobodyClears();
    assert task !in s.group.found;
    assert [] + [w] == [w] && {} + ItemClears(w.item) == ItemClears(w.item) && bits - {} == bits;
    assert s.group.found[task := bits + UNBLOCKED] - {task} == s.group.found;
    assert s.asks[task := r] - {task} == s.asks;
  }

  lemma NobodyClears()
    ensures ClearMask([]) == {}
  {
  }

  lemma ClearsAsked(r: Request)
    requires r.Valid()
    ensures ItemClears(r.Item()) == if r.clear then r.bits else {}
  {
    ItemUnpacks(r);
  }

  /** A task whose time was up goes on as if it called again without blocking; one that was released
      changes nothing any more. */
  lemma ResumeAsIfCalled(s: System, task: nat)
    requires Inv(s) && task in s.group.found && task in s.asks
    ensures var rest := System(s.group.(found := s.group.found - {task}), s.asks - {task});
            var (after, value) := AfterResume(s, task);
            if s.group.found[task] * UNBLOCKED == {}
            then (after, Some(value)) == AfterWait(rest, task, s.asks[task], false)
            else after == rest && value + UNBLOCKED == s.group.found[task] - (CONTROL - UNBLOCKED)
  {
    NoControl(s.group.bits);
    var found := s.group.found[task];
    if found * UNBLOCKED != {} {
      assert 25 in found;
      assert found - CONTROL + UNBLOCKED == found - (CONTROL - UNBLOCKED);
    }
  }

  /** A rendezvous whose bits are not all there is setting and then waiting for all of them; when they are
      it returns the bits before anybody's were taken away, and the mask is taken away from what setting left. */
  lemma SyncMeaning(s: System, task: nat, toSet: Bits, mask: Bits, mayBlock: bool)
    ensures var later := s.(group := AfterSet(s.group, toSet));
            var reached := s.group.bits + toSet;
            var (after, value) := AfterSync(s, task, toSet, mask, mayBlock);
            if mask <= reached
            then value == Some(reached) && after.asks == s.asks && after.group.waiters == later.group.waiters &&
                 after.group.found == later.group.found &&
                 forall b :: b in after.group.bits <==> b in later.group.bits && b !in mask
            else (after, value) == AfterWait(later, task, Request(mask, true, true), mayBlock)
  {
    SyncUnmet(s.group, toSet, mask);
    hide AfterSet;
    assert mask <= s.group.bits + toSet <==> (s.group.bits + toSet) * mask == mask by {
      if (s.group.bits + toSet) * mask == mask {
        assert forall b | b in mask :: b in (s.group.bits + toSet) * mask;
      }
    }
  }

  /** vEventGroupDelete takes every task off the list with no bits at all. */
  function AfterDelete(g: Group): Group {
    Group(g.bits, [], Wake(g.found, g.waiters, UNBLOCKED))
  }

  /** A task that waits when the group is deleted returns no bits, which never meets what it asked for. */
  lemma DeletedFindsNothing(s: System, task: nat)
    requires Inv(s) && task in Tasks(s.group.waiters)
    ensures var deleted := s.(group := AfterDelete(s.group));
            deleted.group.waiters == [] && task in deleted.group.found &&
            var (_, value) := AfterResume(deleted, task);
            value == {} && !Met(value, s.asks[task].bits, s.asks[task].all)
  {
    var deleted := s.(group := AfterDelete(s.group));
    assert deleted.group.found[task] == UNBLOCKED;
    assert 25 in UNBLOCKED * UNBLOCKED && UNBLOCKED - CONTROL == {};
  }

  // ---------------------------------------------------------------------------------------------
  // The rendezvous

  datatype Arrival = Arrival(task: nat, bits: Bits)

  /** The bits set once these arrivals have been made, if none are cleared on the way. */
  function Reached(bits: Bits, arrivals: seq<Arrival>): Bits
    decreases |arrivals|
  {
    if |arrivals| == 0 then bits else Reached(bits + arrivals[0].bits, arrivals[1..])
  }

  /** The tasks call xEventGroupSync one after the other, all with the same mask. */
  function Arrive(s: System, arrivals: seq<Arrival>, mask: Bits): System
    decreases |arrivals|
  {
    if |arrivals| == 0 then s
    else Arrive(AfterSync(s, arrivals[0].task, arrivals[0].bits, mask, true).0, arrivals[1..], mask)
  }

  function Queue(arrivals: seq<Arrival>, mask: Bits): seq<Waiter> {
    seq(|arrivals|, i requires 0 <= i < |arrivals| => Waiter(arrivals[i].task, Rendezvous(mask).Item()))
  }

  predicate AllAtRendezvous(waiters: seq<Waiter>, mask: Bits) {
    forall i | 0 <= i < |waiters| :: waiters[i].item == Rendezvous(mask).Item()
  }

  lemma RendezvousItem(mask: Bits, current: Bits)
    requires Rendezvous(mask).Valid()
    ensures ItemMet(current, Rendezvous(mask).Item()) <==> current * mask == mask
    ensures ItemClears(Rendezvous(mask).Item()) == mask
  {
    ItemUnpacks(Rendezvous(mask));
  }

  lemma {:induction false} AllOrNone(waiters: seq<Waiter>, mask: Bits, current: Bits)
    requires Rendezvous(mask).Valid() && AllAtRendezvous(waiters, mask)
    ensures current * mask == mask ==> Released(waiters, current) == waiters && Kept(waiters, current) == []
    ensures current * mask != mask ==> Released(waiters, current) == [] && Kept(waiters, current) == waiters
    ensures ClearMask(waiters) == if waiters == [] then {} else mask
  {
    hide ItemMet, ItemClears, Request.Item, Request.Valid;
    if |waiters| > 0 {
      RendezvousItem(mask, current);
      AllOrNone(waiters[1..], mask, current);
      assert waiters == [waiters[0]] + waiters[1..];
      assert mask + {} == mask && mask + mask == mask;
    }
  }

  // None of these would be released by `current`.
  ghost predicate Patient(waiters: seq<Waiter>, current: Bits) {
    forall i | 0 <= i < |waiters| :: !ItemMet(current, waiters[i].item)
  }

  lemma {:induction false} PatientStay(waiters: seq<Waiter>, current: Bits)
    requires Patient(waiters, current)
    ensures Released(waiters, current) == [] && Kept(waiters, current) == waiters
  {
    hide ItemMet;
    if |waiters| > 0 {
      PatientStay(waiters[1..], current);
      assert waiters == [waiters[0]] + waiters[1..];
    }
  }

  lemma {:induction false} ReleasedBoth(a: seq<Waiter>, b: seq<Waiter>, current: Bits)
    ensures Released(a + b, current) == Released(a, current) + Released(b, current)
  {
    hide ItemMet;
    if |a| == 0 {
      assert a + b == b;
    } else {
      ReleasedBoth(a[1..], b, current);
      assert (a + b)[0] == a[0] && (a + b)[1..] == a[1..] + b;
      var first := if ItemMet(current, a[0].item) then [a[0]] else [];
      assert Released(a + b, current) == first + Released(a[1..] + b, current);
      assert Released(a, current) == first + Released(a[1..], current);
    }
  }

  lemma {:induction false} KeptBoth(a: seq<Waiter>, b: seq<Waiter>, current: Bits)
    ensures Kept(a + b, current) == Kept(a, current) + Kept(b, current)
  {
    hide ItemMet;
    if |a| == 0 {
      assert a + b == b;
    } else {
      KeptBoth(a[1..], b, current);
      assert (a + b)[0] == a[0] && (a + b)[1..] == a[1..] + b;
      var first := if ItemMet(current, a[0].item) then [] else [a[0]];
      assert Kept(a + b, current) == first + Kept(a[1..] + b, current);
      assert Kept(a, current) == first + Kept(a[1..], current);
    }
  }

  /** As long as the mask is not covered every arrival blocks and nothing else changes, if whoever waits
      already waits for something else. */
  lemma {:induction false} EarlyArrivals(s: System, arrivals: seq<Arrival>, mask: Bits)
    requires Rendezvous(mask).Valid()
    requires forall k | 0 < k <= |arrivals| ::
               Reached(s.group.bits, arrivals[..k]) * mask != mask &&
               Patient(s.group.waiters, Reached(s.group.bits, arrivals[..k]))
    ensures Arrive(s, arrivals, mask).group ==
            Group(Reached(s.group.bits, arrivals), s.group.waiters + Queue(arrivals, mask), s.group.found)
    ensures s.asks.Keys <= Arrive(s, arrivals, mask).asks.Keys
    ensures forall i | 0 <= i < |arrivals| :: arrivals[i].task in Arrive(s, arrivals, mask).asks
    decreases |arrivals|
  {
    hide AfterSync, Request.Item, Request.Valid, ItemMet;
    if |arrivals| > 0 {
      var a, current := arrivals[0], s.group.bits + arrivals[0].bits;
      assert arrivals[..1] == [a];
      assert Reached(s.group.bits, [a]) == Reached(current, []);
      OneArrival(s, a, mask);
      var w := Waiter(a.task, Rendezvous(mask).Item());
      forall k | 0 < k <= |arrivals| - 1
        ensures Reached(current, arrivals[1..][..k]) * mask != mask &&
                Patient(s.group.waiters + [w], Reached(current, arrivals[1..][..k]))
      {
        assert arrivals[..k + 1][1..] == arrivals[1..][..k];
        RendezvousItem(mask, Reached(current, arrivals[1..][..k]));
      }
      EarlyArrivals(AfterSync(s, a.task, a.bits, mask, true).0, arrivals[1..], mask);
      assert s.group.waiters + [w] + Queue(arrivals[1..], mask) == s.group.waiters + Queue(arrivals, mask);
      forall i | 0 <= i < |arrivals| ensures arrivals[i].task in Arrive(s, arrivals, mask).asks {
        if i > 0 { assert arrivals[i] == arrivals[1..][i - 1]; }
      }
    } else {
      assert s.group.waiters + Queue(arrivals, mask) == s.group.waiters;
    }
  }

  // An arrival that does not yet cover the mask.
  lemma OneArrival(s: System, a: Arrival, mask: Bits)
    requires Rendezvous(mask).Valid() && Patient(s.group.waiters, s.group.bits + a.bits)
    requires (s.group.bits + a.bits) * mask != mask
    ensures var after := AfterSync(s, a.task, a.bits, mask, true).0;
            && after.group == Group(s.group.bits + a.bits,
                s.group.waiters + [Waiter(a.task, Rendezvous(mask).Item())], s.group.found)
            && after.asks.Keys == s.asks.Keys + {a.task}
  {
    hide ItemMet, ItemClears, Released, Kept, ClearMask, Request.Item, Request.Valid, Patient;
    var current := s.group.bits + a.bits;
    PatientStay(s.group.waiters, current);
    AllOrNone([], mask, current);
    assert current - {} == current && Wake(s.group.found, [], current + UNBLOCKED) == s.group.found;
  }

  lemma {:induction false} ReachedGrows(bits: Bits, arrivals: seq<Arrival>, k: nat)
    requires k <= |arrivals|
    ensures bits <= Reached(bits, arrivals[..k]) <= Reached(bits, arrivals)
    decreases |arrivals|
  {
    if |arrivals| > 0 {
      ReachedGrows(bits + arrivals[0].bits, arrivals[1..], if k > 0 then k - 1 else 0);
      if k > 0 { assert arrivals[..k][1..] == arrivals[1..][..k - 1]; }
    }
  }

  lemma {:induction false} ReachedUsable(bits: Bits, arrivals: seq<Arrival>)
    requires bits * CONTROL == {} && forall i | 0 <= i < |arrivals| :: arrivals[i].bits * CONTROL == {}
    ensures Reached(bits, arrivals) * CONTROL == {}
    decreases |arrivals|
  {
    if |arrivals| > 0 {
      assert (bits + arrivals[0].bits) * CONTROL == bits * CONTROL + arrivals[0].bits * CONTROL;
      ReachedUsable(bits + arrivals[0].bits, arrivals[1..]);
    }
  }

  lemma {:induction false} ReachedSnoc(bits: Bits, arrivals: seq<Arrival>, a: Arrival)
    ensures Reached(bits, arrivals + [a]) == Reached(bits, arrivals) + a.bits
    decreases |arrivals|
  {
    if |arrivals| == 0 {
      assert arrivals + [a] == [a];
      assert Reached(bits, [a]) == Reached(bits + a.bits, []);
    } else {
      ReachedSnoc(bits + arrivals[0].bits, arrivals[1..], a);
      assert (arrivals + [a])[1..] == arrivals[1..] + [a];
    }
  }

  /** The barrier: every task but the last blocks, the last one releases them all, every call returns
      the same value, which covers the mask, and the mask is clear again. Whoever waits for something
      else goes on waiting. */
  lemma Barrier(s: System, early: seq<Arrival>, last: Arrival, mask: Bits)
    requires Rendezvous(mask).Valid() && s.group.bits * CONTROL == {}
    requires forall i | 0 <= i < |early + [last]| :: (early + [last])[i].bits * CONTROL == {}
    requires forall k | 0 < k <= |early| :: Reached(s.group.bits, early[..k]) * mask != mask
    requires Reached(s.group.bits, early + [last]) * mask == mask
    requires Patient(s.group.waiters, Reached(s.group.bits, early + [last]))
    ensures var meeting := Arrive(s, early, mask);
            var everything := Reached(s.group.bits, early + [last]);
            var (after, value) := AfterSync(meeting, last.task, last.bits, mask, true);
            && meeting.group.waiters == s.group.waiters + Queue(early, mask) && meeting.group.found == s.group.found
            && after.group.waiters == s.group.waiters && after.group.bits == everything - mask
            && value == Some(everything)
            && (forall i | 0 <= i < |early| ::
                  early[i].task in after.group.found && early[i].task in after.asks &&
                  AfterResume(after, early[i].task).1 == everything)
  {
    hide ItemMet, ItemClears, Released, Kept, ClearMask, Request.Item, Request.Valid, Reached, Arrive;
    var everything := Reached(s.group.bits, early + [last]);
    forall k | 0 < k <= |early| ensures Patient(s.group.waiters, Reached(s.group.bits, early[..k])) {
      ReachedGrows(s.group.bits, early + [last], k);
      assert (early + [last])[..k] == early[..k];
      forall i | 0 <= i < |s.group.waiters|
        ensures !ItemMet(Reached(s.group.bits, early[..k]), s.group.waiters[i].item)
      {
        if ItemMet(Reached(s.group.bits, early[..k]), s.group.waiters[i].item) {
          MetMonotonic(everything, Reached(s.group.bits, early[..k]), s.group.waiters[i].item);
        }
      }
    }
    EarlyArrivals(s, early, mask);
    ReachedSnoc(s.group.bits, early, last);
    ReachedUsable(s.group.bits, early + [last]);
    var meeting := Arrive(s, early, mask);
    LastArrival(meeting, s.group.waiters, Queue(early, mask), last, mask);
    forall i | 0 <= i < |early| ensures early[i].task in Tasks(Queue(early, mask)) {
      assert Queue(early, mask)[i].task == early[i].task;
    }
    Unblocked(everything);
  }

  lemma LastArrival(s: System, others: seq<Waiter>, queue: seq<Waiter>, last: Arrival, mask: Bits)
    requires Rendezvous(mask).Valid() && AllAtRendezvous(queue, mask) && s.group.waiters == others + queue
    requires (s.group.bits + last.bits) * mask == mask && Patient(others, s.group.bits + last.bits)
    ensures var everything := s.group.bits + last.bits;
            var (after, value) := AfterSync(s, last.task, last.bits, mask, true);
            && after.group == Group(everything - mask, others, Wake(s.group.found, queue, everything + UNBLOCKED))
            && value == Some(everything) && after.asks == s.asks
  {
    hide ItemMet, ItemClears, Released, Kept, ClearMask, Request.Item, Request.Valid, Patient, Wake;
    var everything := s.group.bits + last.bits;
    ReleasedBoth(others, queue, everything);
    KeptBoth(others, queue, everything);
    PatientStay(others, everything);
    AllOrNone(queue, mask, everything);
    assert [] + queue == queue && others + [] == others;
    assert (everything - {}) - mask == everything - mask && (everything - mask) - mask == everything - mask;
  }

  lemma Unblocked(value: Bits)
    requires value * CONTROL == {}
    ensures (value + UNBLOCKED) * UNBLOCKED != {} && (value + UNBLOCKED) - CONTROL == value
  {
    assert 25 in (value + UNBLOCKED) * UNBLOCKED;
    NoControl(value);
  }

  class EventGroup {
    var bits: Bits
    var waiters: seq<Waiter>
    var found: map<nat, Bits>
    ghost var asks: map<nat, Request>  // the arguments kept on the stacks of the tasks inside a call

    function State(): Group
      reads this
    {
      Group(bits, waiters, found)
    }

    ghost function Whole(): System
      reads this
    {
      System(State(), asks)
    }

    constructor ()
      ensures Whole() == System(Group({}, [], map[]), map[]) && Inv(Whole())
    {
      bits, waiters, found, asks := {}, [], map[], map[];
    }

    /** vTaskRemoveFromUnorderedEventList on the item at position i. */
    method RemoveFromList(i: nat, value: Bits)
      requires i < |waiters|
      modifies this`waiters, this`found
      ensures waiters == old(waiters)[..i] + old(waiters)[i + 1..]
      ensures found == old(found)[old(waiters)[i].task := value]
    {
      found := found[waiters[i].task := value];
      waiters := waiters[..i] + waiters[i + 1..];
    }

    /** xEventGroupSetBits. What it returns is read at the end, here before anybody else has run. */
    method SetBits(toSet: Bits) returns (value: Bits)
      modifies this`bits, this`waiters, this`found
      ensures State() == AfterSet(old(State()), toSet)
      ensures value == AfterSet(old(State()), toSet).bits
    {
      hide ItemMet, ItemClears, Released, Kept, ClearMask, Wake, Midway;
      ghost var all, p, was := waiters, 0, found;
      LoopStarts(all, bits + toSet, found);
      var toClear: Bits := {};
      bits := bits + toSet;
      var i := 0;
      while i < |waiters|
        invariant bits == old(bits) + toSet && Midway(all, p, bits, was, waiters, i, toClear, found)
        decreases |waiters| - i
      {
        var w := waiters[i];
        LoopStep(all, p, bits, was, waiters, i, toClear, found);
        var matchFound;
        matchFound, toClear := TestItem(w.item, toClear);
        if matchFound {
          RemoveFromList(i, bits + UNBLOCKED);
        } else {
          i := i + 1;
        }
        p := p + 1;
      }
      LoopEnds(all, p, bits, was, waiters, i, toClear, found);
      bits := bits - toClear;
      value := bits;
    }

    // What the loop of xEventGroupSetBits asks of one list item.
    method TestItem(item: Bits, toClear: Bits) returns (matchFound: bool, clear: Bits)
      ensures matchFound == ItemMet(bits, item)
      ensures clear == toClear + if matchFound then ItemClears(item) else {}
    {
      LoopTests(bits, item);
      var control := item * CONTROL;
      var waitedFor := item - CONTROL;
      matchFound, clear := false, toClear;
      if control * WAIT_FOR_ALL == {} {
        matchFound := waitedFor * bits != {};
      } else if waitedFor * bits == waitedFor {
        matchFound := true;
      }
      if matchFound && control * CLEAR_ON_EXIT != {} {
        clear := toClear + waitedFor;
      }
    }

    method ClearBits(toClear: Bits) returns (before: Bits)
      requires Inv(Whole()) && toClear * CONTROL == {}
      modifies this`bits
      ensures Whole() == Step(old(Whole()), Clear(toClear)) && before == old(bits) && Inv(Whole())
      ensures forall b :: b in bits <==> b in before && b !in toClear
    {
      StepInv(Whole(), Clear(toClear));
      before := bits;
      bits := bits - toClear;
    }

    /** vTaskPlaceOnUnorderedEventList. */
    method PlaceOnList(task: nat, ghost r: Request, item: Bits)
      requires item == r.Item()
      modifies this`waiters, this`asks
      ensures Whole() == Block(old(Whole()), task, r)
    {
      waiters := waiters + [Waiter(task, item)];
      asks := asks[task := r];
    }

    /** xEventGroupWaitBits until the task blocks; None when it does. */
    method WaitBits(task: nat, waitFor: Bits, clearOnExit: bool, waitForAll: bool, mayBlock: bool)
      returns (value: Option<Bits>)
      requires Inv(Whole()) && Enabled(Whole(), Wait(task, Request(waitFor, waitForAll, clearOnExit), mayBlock))
      modifies this
      ensures (Whole(), value) == AfterWait(old(Whole()), task, Request(waitFor, waitForAll, clearOnExit), mayBlock)
      ensures Inv(Whole())
    {
      StepInv(Whole(), Wait(task, Request(waitFor, waitForAll, clearOnExit), mayBlock));
      hide Inv, Request.Valid;
      var current := bits;
      if Met(current, waitFor, waitForAll) {
        value := Some(current);
        if clearOnExit {
          bits := bits - waitFor;
        }
      } else if !mayBlock {
        value := Some(current);
      } else {
        var control: Bits := {};
        if clearOnExit {
          control := control + CLEAR_ON_EXIT;
        }
        if waitForAll {
          control := control + WAIT_FOR_ALL;
        }
        assert waitFor + control == Request(waitFor, waitForAll, clearOnExit).Item();
        PlaceOnList(task, Request(waitFor, waitForAll, clearOnExit), waitFor + control);
        value := None;
      }
    }

    /** xEventGroupSync until the task blocks; None when it does. */
    method Sync(task: nat, toSet: Bits, waitFor: Bits, mayBlock: bool) returns (value: Option<Bits>)
      requires Inv(Whole()) && Enabled(Whole(), Event.Sync(task, toSet, waitFor, mayBlock))
      modifies this
      ensures (Whole(), value) == AfterSync(old(Whole()), task, toSet, waitFor, mayBlock)
      ensures Inv(Whole())
    {
      StepInv(Whole(), Event.Sync(task, toSet, waitFor, mayBlock));
      hide Inv, Request.Valid;
      var original := bits;
      var _ := SetBits(toSet);
      if (original + toSet) * waitFor == waitFor {
        value := Some(original + toSet);
        bits := bits - waitFor;
      } else if mayBlock {
        assert waitFor + CLEAR_ON_EXIT + WAIT_FOR_ALL == Rendezvous(waitFor).Item();
        PlaceOnList(task, Rendezvous(waitFor), waitFor + CLEAR_ON_EXIT + WAIT_FOR_ALL);
        value := None;
      } else {
        value := Some(bits);
      }
    }

    /** vEventGroupDelete, up to giving the memory back. */
    method Delete()
      modifies this`waiters, this`found
      ensures State() == AfterDelete(old(State()))
    {
      hide Wake;
      ghost var all, was, p := waiters, found, 0;
      WakeNobody(found, UNBLOCKED);
      while |waiters| > 0
        invariant p <= |all| && waiters == all[p..] && found == Wake(was, all[..p], UNBLOCKED)
        decreases |waiters|
      {
        WakeSnoc(was, all[..p], all[p], UNBLOCKED);
        assert all[..p] + [all[p]] == all[..p + 1];
        RemoveFromList(0, UNBLOCKED);
        p := p + 1;
      }
      assert all[..p] == all;
    }

    /** The kernel ends the wait of the task at position i of the list. */
    method Timeout(i: nat)
      requires Inv(Whole()) && i < |waiters|
      modifies this
      ensures Whole() == AfterTimeout(old(Whole()), i) && Inv(Whole())
    {
      StepInv(Whole(), Event.Timeout(i));
      hide Inv;
      RemoveFromList(i, waiters[i].item);
    }

    /** The rest of xEventGroupWaitBits and xEventGroupSync (which waits for all bits and clears them),
        once the task runs again. */
    method Finish(task: nat, waitFor: Bits, clearOnExit: bool, waitForAll: bool) returns (value: Bits)
      requires Inv(Whole()) && task in found && task in asks && asks[task] == Request(waitFor, waitForAll, clearOnExit)
      modifies this
      ensures (Whole(), value) == AfterResume(old(Whole()), task) && Inv(Whole())
    {
      StepInv(Whole(), Resume(task));
      hide Inv;
      value := found[task];
      found := found - {task};
      asks := asks - {task};
      if value * UNBLOCKED == {} {
        value := bits;
        if Met(value, waitFor, waitForAll) {
          if clearOnExit {
            bits := bits - waitFor;
          }
        }
      }
      value := value - CONTROL;
    }
  }

}
